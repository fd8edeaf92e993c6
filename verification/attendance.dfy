/** Headcount and first-timers, read from the `Q:`, `PAX:` and `FNG:`/`FNGS:` header lines.
    The `COUNT:` line written by the author is deliberately not trusted. */
module Attendance {
  import opened Wrappers
  import opened Text
  import opened Patterns
  import opened Attendees

  /** A line of the text starts with `KEY:` (case-sensitive) at index `p`. */
  predicate HeaderLineAt(text: string, key: string, p: nat) {
    AtLineStart(text, p) && OccursAt(text, key + ":", p)
  }

  /** The stripped value of the first line that starts with `KEY:`; absent exactly when no
      line starts that way. */
  function HeaderValue(text: string, key: string): (v: Option<string>)
    ensures v.Some? ==> IsStripped(v.value)
    ensures v.None? <==> forall p :: 0 <= p <= |text| ==> !HeaderLineAt(text, key, p)
  {
    match First(text, Header(key))
    case None =>
      assert forall p :: 0 <= p <= |text| ==> !HeaderLineAt(text, key, p) by {
        forall p | 0 <= p <= |text| ensures !HeaderLineAt(text, key, p) {
          assert MatchAt(text, Header(key), p).None?;
        }
      }
      None
    case Some(h) =>
      assert HeaderLineAt(text, key, h.start);
      Some(Strip(Group(text, h)))
  }

  /** A line of the text starts with `FNG:` or `FNGS:`, in any letter case, at index `p`. */
  predicate FngLineAt(text: string, p: nat) {
    AtLineStart(text, p) && OccursAtIgnoringCase(text, "FNG", p)
    && ((OccursAtIgnoringCase(text, "S", p + 3) && OccursAt(text, ":", p + 4)) || OccursAt(text, ":", p + 3))
  }

  /** The stripped value of the first first-timer line; absent exactly when there is none. */
  function FngValue(text: string): (v: Option<string>)
    ensures v.Some? ==> IsStripped(v.value)
    ensures v.None? <==> forall p :: 0 <= p <= |text| ==> !FngLineAt(text, p)
  {
    match First(text, FngHeader)
    case None =>
      assert forall p :: 0 <= p <= |text| ==> !FngLineAt(text, p) by {
        forall p | 0 <= p <= |text| ensures !FngLineAt(text, p) {
          assert MatchAt(text, FngHeader, p).None?;
        }
      }
      None
    case Some(h) =>
      assert FngLineAt(text, h.start);
      Some(Strip(Group(text, h)))
  }

  /** The ids and names on the first `KEY:` line; nothing when there is no such line. */
  function LineRoster(text: string, key: string): (r: Roster)
    ensures HeaderValue(text, key).None? ==> r == Roster({}, {})
    ensures forall id :: id in r.ids ==> IsSlackId(id)
    ensures forall n :: n in r.names ==> IsGuestName(n) && IsStripped(n) && ',' !in n
  {
    match HeaderValue(text, key)
    case None => Roster({}, {})
    case Some(v) => ParsePax(v)
  }

  /** The headcount: distinct registered ids plus distinct display names over the Q line and
      the PAX line together. */
  function PaxCount(text: string): (n: nat)
    ensures |LineRoster(text, "Q").ids| + |LineRoster(text, "Q").names| <= n
    ensures |LineRoster(text, "PAX").ids| + |LineRoster(text, "PAX").names| <= n
    ensures n == 0 <==> LineRoster(text, "Q") == Roster({}, {}) && LineRoster(text, "PAX") == Roster({}, {})
  {
    var q := LineRoster(text, "Q");
    var pax := LineRoster(text, "PAX");
    SubsetCount(q.ids, q.ids + pax.ids);
    SubsetCount(pax.ids, q.ids + pax.ids);
    SubsetCount(q.names, q.names + pax.names);
    SubsetCount(pax.names, q.names + pax.names);
    |q.ids + pax.ids| + |q.names + pax.names|
  }

  /** One attendee: a registered Slack user or a guest known only by display name. */
  datatype Person = Registered(id: string) | Guest(name: string)

  function People(r: Roster): set<Person> {
    (set id | id in r.ids :: Registered(id)) + (set n | n in r.names :: Guest(n))
  }

  lemma {:induction false} RegisteredCount(ids: set<string>)
    ensures |set id | id in ids :: Registered(id)| == |ids|
    decreases |ids|
  {
    if ids != {} {
      var x :| x in ids;
      RegisteredCount(ids - {x});
      assert (set id | id in ids :: Registered(id)) == (set id | id in ids - {x} :: Registered(id)) + {Registered(x)};
    }
  }

  lemma {:induction false} GuestCount(names: set<string>)
    ensures |set n | n in names :: Guest(n)| == |names|
    decreases |names|
  {
    if names != {} {
      var x :| x in names;
      GuestCount(names - {x});
      assert (set n | n in names :: Guest(n)) == (set n | n in names - {x} :: Guest(n)) + {Guest(x)};
    }
  }

  /** The headcount is the number of different people named on the Q line and the PAX line:
      someone on both lines counts once, and a registered user is never confused with a
      guest of the same spelling. */
  lemma HeadcountIsPeople(text: string)
    ensures PaxCount(text) == |People(LineRoster(text, "Q")) + People(LineRoster(text, "PAX"))|
  {
    var q := LineRoster(text, "Q");
    var pax := LineRoster(text, "PAX");
    PeopleOfUnion(q, pax);
  }

  lemma PeopleOfUnion(a: Roster, b: Roster)
    ensures |People(a) + People(b)| == |a.ids + b.ids| + |a.names + b.names|
  {
    var regs := set id | id in a.ids + b.ids :: Registered(id);
    var guests := set n | n in a.names + b.names :: Guest(n);
    assert People(a) + People(b) == regs + guests by {
      forall z ensures z in People(a) + People(b) <==> z in regs + guests {
        match z
        case Registered(id) =>
        case Guest(n) =>
      }
    }
    assert regs * guests == {} by {
      forall z | z in regs ensures z !in guests { }
    }
    RegisteredCount(a.ids + b.ids);
    GuestCount(a.names + b.names);
  }

  /** The first-timers: the display names of the PAX line whose lower-case form occurs in the
      lower-cased value of the first FNG line. Names from the Q line never count. */
  function FngNames(text: string): (fngs: set<string>)
    ensures FngValue(text).None? ==> fngs == {}
    ensures FngValue(text).Some? ==> forall n :: n in fngs <==>
      n in LineRoster(text, "PAX").names && Occurs(Lower(FngValue(text).value), Lower(n))
  {
    match FngValue(text)
    case None => {}
    case Some(v) => set n | n in LineRoster(text, "PAX").names && Contains(Lower(v), Lower(n))
  }

  /** The number of first-timers; they are PAX guests, so the headcount includes them. */
  function FngCount(text: string): (n: nat)
    ensures n <= |LineRoster(text, "PAX").names|
    ensures n <= PaxCount(text)
  {
    var pax := LineRoster(text, "PAX");
    var q := LineRoster(text, "Q");
    SubsetCount(FngNames(text), pax.names);
    SubsetCount(pax.names, q.names + pax.names);
    |FngNames(text)|
  }

  lemma {:induction false} SubsetCount(a: set<string>, b: set<string>)
    requires a <= b
    ensures |a| <= |b|
    decreases |a|
  {
    if a != {} {
      var x :| x in a;
      SubsetCount(a - {x}, b - {x});
    }
  }

  /** Being a first-timer is decided by substring search: a PAX name that occurs inside the
      name of a first-timer is a first-timer too. */
  lemma FngBySubstring(text: string, n: string, m: string)
    requires n in LineRoster(text, "PAX").names && m in FngNames(text)
    requires Occurs(Lower(m), Lower(n))
    ensures n in FngNames(text)
  {
    OccursTransitive(Lower(FngValue(text).value), Lower(m), Lower(n));
  }

  /** The rest of the `COUNT:` line, which may end the text with one line break. */
  predicate IsLastLine(v: string) {
    forall i :: 0 <= i < |v| - 1 ==> v[i] != '\n'
  }

  function CountLine(v: string): string {
    "\nCOUNT:" + v
  }

  /** No `Q:`, `PAX:` or first-timer line starts inside an appended `COUNT:` line. */
  lemma NoHeaderInCountLine(t: string, v: string, pat: Pattern, p: nat)
    requires pat == Header("Q") || pat == Header("PAX") || pat == FngHeader
    requires IsLastLine(v) && |t| < p <= |t + CountLine(v)|
    ensures MatchAt(t + CountLine(v), pat, p).None?
  {
    CountLineStarts(t, v, p);
    NoHeaderAt(t + CountLine(v), pat, p);
  }

  /** Inside an appended `COUNT:` line, the only line start is the `C` of `COUNT`, save
      possibly the very end of the text. */
  lemma CountLineStarts(t: string, v: string, p: nat)
    requires IsLastLine(v) && |t| < p <= |t + CountLine(v)|
    ensures var s := t + CountLine(v);
      p == |s| || !AtLineStart(s, p) || s[p] == 'C'
  {
    var x := CountLine(v);
    var s := t + x;
    assert s[p - 1] == x[p - 1 - |t|];
    if p == |t| + 1 {
      assert s[p] == x[1];
    } else if p < |s| {
      var i := p - 1 - |t|;
      assert i >= 1 && x[i] != '\n' by {
        if i >= 7 { assert x[i] == v[i - 7]; }
      }
    }
  }

  /** None of the head-count headers matches at the end of a text, off a line start, or where
      the line starts with `C`. */
  lemma NoHeaderAt(s: string, pat: Pattern, p: nat)
    requires pat == Header("Q") || pat == Header("PAX") || pat == FngHeader
    requires p <= |s| && (p == |s| || !AtLineStart(s, p) || s[p] == 'C')
    ensures MatchAt(s, pat, p).None?
  {
    if p < |s| && AtLineStart(s, p) {
      if pat == FngHeader && p + 3 <= |s| {
        assert Lower(s[p..p + 3])[0] == LowerChar(s[p]) == 'c';
        assert Lower("FNG")[0] == 'f';
      } else if pat != FngHeader {
        var w := pat.key + ":";
        assert w[0] != 'C';
        if p + |w| <= |s| {
          assert s[p..p + |w|][0] == s[p];
        }
      }
    }
  }

  /** Appending a last `COUNT:` line to a settled text leaves every header value alone. */
  lemma HeaderValueIgnoresCountLine(t: string, v: string, key: string)
    requires EndsSettled(t) && IsLastLine(v) && (key == "Q" || key == "PAX")
    ensures HeaderValue(t + CountLine(v), key) == HeaderValue(t, key)
  {
    var x := CountLine(v);
    forall p | 0 <= p <= |t| ensures MatchAt(t + x, Header(key), p) == MatchAt(t, Header(key), p) {
      HeaderExtended(t, x, key, p);
    }
    forall p | |t| < p <= |t + x| ensures MatchAt(t + x, Header(key), p).None? {
      NoHeaderInCountLine(t, v, Header(key), p);
    }
    FirstOfExtension(t, x, Header(key));
    var r := First(t, Header(key));
    if r.Some? {
      GroupExtended(t, x, r.value);
    }
  }

  lemma FngValueIgnoresCountLine(t: string, v: string)
    requires EndsSettled(t) && IsLastLine(v)
    ensures FngValue(t + CountLine(v)) == FngValue(t)
  {
    var x := CountLine(v);
    forall p | 0 <= p <= |t| ensures MatchAt(t + x, FngHeader, p) == MatchAt(t, FngHeader, p) {
      FngHeaderExtended(t, x, p);
    }
    forall p | |t| < p <= |t + x| ensures MatchAt(t + x, FngHeader, p).None? {
      NoHeaderInCountLine(t, v, FngHeader, p);
    }
    FirstOfExtension(t, x, FngHeader);
    var r := First(t, FngHeader);
    if r.Some? {
      GroupExtended(t, x, r.value);
    }
  }

  /** The headcount and the first-timers do not depend on what the `COUNT:` line says:
      appending any last `COUNT:` line to a settled text changes neither. */
  lemma CountLineIgnored(t: string, v: string)
    requires EndsSettled(t) && IsLastLine(v)
    ensures PaxCount(t + CountLine(v)) == PaxCount(t)
    ensures FngNames(t + CountLine(v)) == FngNames(t)
    ensures FngCount(t + CountLine(v)) == FngCount(t)
  {
    HeadcountIgnoresCountLine(t, v);
    FngsIgnoreCountLine(t, v);
  }

  lemma HeadcountIgnoresCountLine(t: string, v: string)
    requires EndsSettled(t) && IsLastLine(v)
    ensures PaxCount(t + CountLine(v)) == PaxCount(t)
  {
    HeaderValueIgnoresCountLine(t, v, "Q");
    HeaderValueIgnoresCountLine(t, v, "PAX");
  }

  lemma FngsIgnoreCountLine(t: string, v: string)
    requires EndsSettled(t) && IsLastLine(v)
    ensures FngNames(t + CountLine(v)) == FngNames(t)
  {
    HeaderValueIgnoresCountLine(t, v, "PAX");
    FngValueIgnoresCountLine(t, v);
  }

  /** A header with nothing after its colon takes the next line as its value, because the
      whitespace after the colon may run over the line break. */
  lemma EmptyHeaderTakesNextLine(key: string, line: string, rest: string)
    requires '\n' !in key && '\n' !in line && |line| > 0 && !IsSpace(line[0])
    requires rest == [] || rest[0] == '\n'
    ensures HeaderValue(key + ":\n" + line + rest, key) == Some(Strip(line))
  {
    var text := key + ":\n" + line + rest;
    var c := |key| + 1;
    assert text[..c] == key + ":";
    assert OccursAt(text, key + ":", 0);
    assert text[c] == '\n' && text[c + 1] == line[0];
    assert SkipSpaces(text, c) == c + 1;
    assert forall i :: c + 1 <= i < c + 1 + |line| ==> text[i] == line[i - c - 1];
    var e := c + 1 + |line|;
    assert e == |text| || text[e] == '\n';
    assert LineEnd(text, c + 1) == e;
    assert text[c + 1..e] == line;
    FirstIs(text, Header(key), 0);
  }

  /** A new line appended after `t` neither creates nor removes a `KEY:` line inside `t`. */
  lemma HeaderLineKept(t: string, x: string, key: string, p: nat)
    requires |x| > 0 && x[0] == '\n' && '\n' !in key && p <= |t|
    ensures HeaderLineAt(t + x, key, p) <==> HeaderLineAt(t, key, p)
  {
    if p > 0 { assert (t + x)[p - 1] == t[p - 1]; }
    OccursAtExtended(t, x, key + ":", p);
  }

  /** Only the first `KEY:` line counts: after a text without one, a `KEY:` line gives its
      own stripped value, with or without whitespace after the colon, whatever lines follow
      it (another `KEY:` line included). */
  lemma HeaderValueIsFirst(t: string, key: string, v: string, rest: string)
    requires '\n' !in key
    requires forall p :: 0 <= p <= |t| ==> !HeaderLineAt(t, key, p)
    requires !AllSpace(v) && '\n' !in v
    ensures HeaderValue(t + "\n" + (key + ":" + v) + "\n" + rest, key) == Some(Strip(v))
  {
    var x := "\n" + (key + ":" + v) + "\n" + rest;
    LineAt(t, key + ":", v, rest);
    var hit := HeaderLineMatch(t + x, |t| + 1, key, v);
    FirstHeaderAfter(t, x, key);
    ValueOfFirst(t + x, Header(key), hit);
  }

  /** A `KEY:` header at a line start followed by the line's text `v` captures `v`, less
      its leading whitespace. */
  lemma HeaderLineMatch(text: string, h: nat, key: string, v: string) returns (hit: Hit)
    requires !AllSpace(v) && '\n' !in v
    requires h + |key| + 1 + |v| < |text| && AtLineStart(text, h)
    requires text[h..h + |key| + 1] == key + ":" && text[h + |key| + 1..h + |key| + 1 + |v|] == v
    requires text[h + |key| + 1 + |v|] == '\n'
    ensures MatchAt(text, Header(key), h) == Some(hit) && hit.from <= hit.to <= |text|
    ensures Strip(Group(text, hit)) == Strip(v)
  {
    var k := h + |key| + 1;
    HeaderAt(text, h, key);
    RestOfLinePadded(text, h, k, v);
    hit := RestOfLine(text, h, k);
  }

  /** A `KEY:` header at a line start matches, with the captured text starting after its
      colon. */
  lemma HeaderAt(text: string, h: nat, key: string)
    requires h + |key| + 1 <= |text| && AtLineStart(text, h) && text[h..h + |key| + 1] == key + ":"
    ensures MatchAt(text, Header(key), h) == Some(RestOfLine(text, h, h + |key| + 1))
  {
    assert OccursAt(text, key + ":", h);
  }

  /** After a text without a `KEY:` line, `re.search` reports the match on the next line. */
  lemma FirstHeaderAfter(t: string, x: string, key: string)
    requires '\n' !in key && forall p :: 0 <= p <= |t| ==> !HeaderLineAt(t, key, p)
    requires |x| > 0 && x[0] == '\n' && MatchAt(t + x, Header(key), |t| + 1).Some?
    ensures First(t + x, Header(key)) == MatchAt(t + x, Header(key), |t| + 1)
  {
    forall p | 0 <= p <= |t| ensures MatchAt(t + x, Header(key), p).None? {
      HeaderLineKept(t, x, key, p);
    }
    FirstIs(t + x, Header(key), |t| + 1);
  }

  /** The values of the `KEY:` and first-timer lines are the stripped capture of the first match. */
  lemma ValueOfFirst(text: string, pat: Pattern, hit: Hit)
    requires pat.Header? || pat.FngHeader?
    requires First(text, pat) == Some(hit)
    ensures hit.from <= hit.to <= |text|
    ensures pat.Header? ==> HeaderValue(text, pat.key) == Some(Strip(Group(text, hit)))
    ensures pat.FngHeader? ==> FngValue(text) == Some(Strip(Group(text, hit)))
  {
  }

  /** A new line appended after `t` neither creates nor removes a first-timer line inside `t`. */
  lemma FngLineKept(t: string, x: string, p: nat)
    requires |x| > 0 && x[0] == '\n' && p <= |t|
    ensures FngLineAt(t + x, p) <==> FngLineAt(t, p)
  {
    FngStartExtended(t, x, p);
  }

  /** Only the first first-timer line counts: after a text without one, an `FNG:` or `FNGS:`
      line in any letter case gives its own stripped value, with or without whitespace after
      the colon, whatever lines follow it. */
  lemma FngValueIsFirst(t: string, f: string, v: string, rest: string)
    requires Lower(f) == "fngs:" || Lower(f) == "fng:"
    requires forall p :: 0 <= p <= |t| ==> !FngLineAt(t, p)
    requires !AllSpace(v) && '\n' !in v
    ensures FngValue(t + "\n" + (f + v) + "\n" + rest) == Some(Strip(v))
  {
    var x := "\n" + (f + v) + "\n" + rest;
    LineAt(t, f, v, rest);
    var hit := FngLineMatch(t + x, |t| + 1, f, v);
    FirstFngAfter(t, x);
    ValueOfFirst(t + x, FngHeader, hit);
  }

  /** A first-timer header `f` at a line start followed by the line's text `v` captures `v`,
      less its leading whitespace. */
  lemma FngLineMatch(text: string, h: nat, f: string, v: string) returns (hit: Hit)
    requires Lower(f) == "fngs:" || Lower(f) == "fng:"
    requires !AllSpace(v) && '\n' !in v
    requires h + |f| + |v| < |text| && AtLineStart(text, h)
    requires text[h..h + |f|] == f && text[h + |f|..h + |f| + |v|] == v && text[h + |f| + |v|] == '\n'
    ensures MatchAt(text, FngHeader, h) == Some(hit) && hit.from <= hit.to <= |text|
    ensures Strip(Group(text, hit)) == Strip(v)
  {
    var k := h + |f|;
    assert MatchAt(text, FngHeader, h) == Some(RestOfLine(text, h, k)) by { FngHeaderAt(text, h, f); }
    assert Strip(Group(text, RestOfLine(text, h, k))) == Strip(v) by { RestOfLinePadded(text, h, k, v); }
    hit := RestOfLine(text, h, k);
  }

  /** After a text without a first-timer line, `re.search` reports the match on the next line. */
  lemma FirstFngAfter(t: string, x: string)
    requires forall p :: 0 <= p <= |t| ==> !FngLineAt(t, p)
    requires |x| > 0 && x[0] == '\n' && MatchAt(t + x, FngHeader, |t| + 1).Some?
    ensures First(t + x, FngHeader) == MatchAt(t + x, FngHeader, |t| + 1)
  {
    forall p | 0 <= p <= |t| ensures MatchAt(t + x, FngHeader, p).None? {
      FngLineKept(t, x, p);
    }
    FirstIs(t + x, FngHeader, |t| + 1);
  }

  /** An `FNG:` or `FNGS:` header in any letter case at a line start matches, with the
      captured text starting after its colon. */
  lemma FngHeaderAt(text: string, h: nat, f: string)
    requires Lower(f) == "fngs:" || Lower(f) == "fng:"
    requires h + |f| <= |text| && AtLineStart(text, h) && text[h..h + |f|] == f
    ensures MatchAt(text, FngHeader, h) == Some(RestOfLine(text, h, h + |f|))
  {
    assert Lower(f)[..3] == Lower(f[..3]) by { LowerConcat(f[..3], f[3..]); assert f == f[..3] + f[3..]; }
    assert text[h..h + 3] == f[..3];
    assert Lower("FNG") == "fng";
    assert LowerChar(f[3]) == Lower(f)[3];
    if Lower(f) == "fngs:" {
      assert text[h + 3..h + 4] == [f[3]];
      assert Lower([f[3]]) == "s" == Lower("S");
      assert LowerChar(f[4]) == ':';
      assert text[h + 4..h + 5] == ":";
    } else {
      assert LowerChar(f[3]) == ':';
      assert text[h + 3] == ':';
      assert text[h + 3..h + 4] == ":";
      assert Lower(text[h + 3..h + 4]) != Lower("S");
    }
  }

  /** The roster of a `KEY:` line that lists mentions and names separated by commas, after
      a text without such a line, is exactly those ids and names, whatever whitespace `pad`
      (a blank, say) separates them from the colon. */
  lemma LineRosterOfLine(t: string, key: string, pad: string, ids: seq<string>, names: seq<string>, rest: string)
    requires '\n' !in key
    requires forall p :: 0 <= p <= |t| ==> !HeaderLineAt(t, key, p)
    requires AllSpace(pad) && '\n' !in pad
    requires |ids| + |names| > 0
    requires forall k :: 0 <= k < |ids| ==> IsSlackId(ids[k])
    requires forall k :: 0 <= k < |names| ==> IsCleanName(names[k])
    ensures LineRoster(t + "\n" + (key + ":" + (pad + Render(ids, names))) + "\n" + rest, key)
      == Roster(set id | id in ids, set n | n in names)
  {
    var r := Render(ids, names);
    RenderShape(ids, names);
    assert '\n' !in r by {
      forall k | 0 <= k < |r| ensures r[k] != '\n' {
        if IsSpace(r[k]) { assert r[k] == ' '; }
      }
    }
    var v := pad + r;
    assert !AllSpace(v) by { assert v[|pad|] == r[0]; }
    assert '\n' !in v by {
      forall k | 0 <= k < |v| ensures v[k] != '\n' {
        if k < |pad| { assert v[k] == pad[k]; } else { assert v[k] == r[k - |pad|]; }
      }
    }
    HeaderValueIsFirst(t, key, v, rest);
    StripLeadingSpace(pad, r);
    StripStripped(r);
    ParseRender(ids, names);
  }

  /** The usual form, with a blank after the colon: `PAX: <@U1>,John`. */
  lemma PaxLineExample(rest: string)
    ensures LineRoster("\nPAX: <@U1>,John\n" + rest, "PAX") == Roster({"U1"}, {"John"})
  {
    var ids, names := ["U1"], ["John"];
    RenderExample();
    assert IsSlackId("U1");
    CleanNameExample();
    assert !HeaderLineAt([], "PAX", 0);
    LineRosterOfLine([], "PAX", " ", ids, names, rest);
    PaxLineText(rest);
    SetOfOne("U1");
    SetOfOne("John");
  }

  lemma RenderExample()
    ensures Render(["U1"], ["John"]) == "<@U1>,John"
  {
    var ms := Mentions(["U1"]);
    assert ms[0] == Mention("U1") == "<@U1>";
    var parts := ms + ["John"];
    assert parts == ["<@U1>", "John"];
    assert parts[1..] == ["John"];
    assert Join(parts, ',') == "<@U1>" + [','] + "John";
  }

  lemma PaxLineText(rest: string)
    ensures [] + "\n" + ("PAX" + ":" + (" " + "<@U1>,John")) + "\n" + rest == "\nPAX: <@U1>,John\n" + rest
  {
    var line := "PAX" + ":" + (" " + "<@U1>,John");
    assert line == "PAX: <@U1>,John";
    assert [] + "\n" + line + "\n" == "\nPAX: <@U1>,John\n";
  }

  lemma SetOfOne(x: string)
    ensures (set e | e in [x]) == {x}
  {
  }

  lemma CleanNameExample()
    ensures IsCleanName("John")
  {
    var n := "John";
    assert n[..2] == "Jo";
    forall i: nat ensures !OccursAt(n, " <@", i) {
      if i + 3 <= |n| { assert n[i..i + 3][0] == n[i] != ' '; }
    }
    assert forall k :: 0 <= k < |n| ==> !IsSpace(n[k]);
  }

  /** `FNG: John`, with a blank after the colon, names John. */
  lemma FngLineExample(rest: string)
    ensures FngValue("\nFNG: John\n" + rest) == Some("John")
  {
    assert Lower("FNG:") == "fng:";
    PaddedJohn();
    FngValueIsFirst([], "FNG:", " John", rest);
    FngLineText(rest);
  }

  lemma PaddedJohn()
    ensures !AllSpace(" John") && Strip(" John") == "John"
  {
    assert !IsSpace(" John"[1]);
    CleanNameExample();
    StripLeadingSpace(" ", "John");
    assert " " + "John" == " John";
    StripStripped("John");
  }

  lemma FngLineText(rest: string)
    ensures [] + "\n" + ("FNG:" + " John") + "\n" + rest == "\nFNG: John\n" + rest
  {
    assert [] + "\n" + ("FNG:" + " John") + "\n" == "\nFNG: John\n";
  }
}
