/**
 * The four scanners `Document` applies to its text: the creation-date header, the
 * explicit `Tags:` header, the first paragraph (the excerpt) and the `[[name words]]`
 * markers of the body. Each is a total function of a string; "nothing found" is the
 * empty result, never an error.
 */
module Extractors {
  import opened Options
  import opened Strings
  import opened Dates

  // ----- Creation date: search(r'^meta-creation_date:\s*(.*?)$', line) -----

  const CreationDateKey: string := "meta-creation_date:"

  /**
   * The captured group of the date pattern: the text after the key and any whitespace,
   * without a final newline. `.` does not match a newline and `$` matches only at the end
   * or before a final newline, so a newline anywhere else means no match.
   */
  function CreationDateValue(line: string): (r: Option<string>)
    ensures r.Some? ==> StartsWith(line, CreationDateKey) && '\n' !in r.value
    ensures r.Some? ==> r.value == [] || !IsSpace(r.value[0])
  {
    if !StartsWith(line, CreationDateKey) then None
    else
      var rest := line[|CreationDateKey|..];
      Captured(rest[LeadingSpaces(rest)..])
  }

  /** `(.*?)$` on the text `v` after the whitespace: `v` less a final newline, when no other newline is in it. */
  function Captured(v: string): (r: Option<string>)
    ensures r.Some? ==> '\n' !in r.value && (v == r.value || v == r.value + "\n")
    ensures (forall k :: 0 <= k < |v| - 1 ==> v[k] != '\n') ==> r.Some?
  {
    var value := if |v| > 0 && v[|v| - 1] == '\n' then v[..|v| - 1] else v;
    assert (forall k :: 0 <= k < |v| - 1 ==> v[k] != '\n') ==> '\n' !in value by {
      if forall k :: 0 <= k < |v| - 1 ==> v[k] != '\n' {
        forall m | 0 <= m < |value|
          ensures value[m] != '\n'
        {
          assert value[m] == v[m];
        }
      }
    }
    if '\n' in value then None else Some(value)
  }

  /**
   * The value is what follows the key and a run of whitespace, less a final newline; and a
   * line that begins with the key and has no newline before its last character always
   * yields one.
   */
  lemma CreationDateValueSpec(line: string)
    ensures CreationDateValue(line).Some? ==>
              exists i :: && |CreationDateKey| <= i <= |line|
                          && (forall k :: |CreationDateKey| <= k < i ==> IsSpace(line[k]))
                          && (line[i..] == CreationDateValue(line).value || line[i..] == CreationDateValue(line).value + "\n")
    ensures StartsWith(line, CreationDateKey) && (forall k :: |CreationDateKey| <= k < |line| - 1 ==> line[k] != '\n')
            ==> CreationDateValue(line).Some?
  {
    if StartsWith(line, CreationDateKey) {
      var n := |CreationDateKey|;
      var rest := line[n..];
      var w := LeadingSpaces(rest);
      assert line[n + w..] == rest[w..];
      assert forall k :: n <= k < n + w ==> line[k] == rest[k - n];
      assert forall k :: 0 <= k < |rest[w..]| - 1 ==> rest[w..][k] == line[n + w + k];
    }
  }

  /**
   * `_extractDate`: the date of a `meta-creation_date:` line under the first of the formats
   * that accepts its value, or `None` (the source's falsy `""`). The middle format never
   * parses, so a value is read as `%m/%d/%Y %H:%M`, or else as `%m/%d/%Y`.
   */
  function ExtractDate(line: string): (r: Option<Date>)
    ensures r.Some? ==> StartsWith(line, CreationDateKey) && ValidDate(r.value)
    ensures CreationDateValue(line).None? ==> r.None?
  {
    match CreationDateValue(line)
    case None => None
    case Some(v) =>
      FirstParse(v, CreationDateFormats)
  }

  /**
   * Of the three formats only two can succeed: the value is read as `%m/%d/%Y %H:%M` when
   * it parses so, and as `%m/%d/%Y` otherwise.
   */
  lemma ExtractDateFallback(line: string)
    ensures CreationDateValue(line).Some? ==>
              var v := CreationDateValue(line).value;
              ExtractDate(line) == if Strptime(v, MonthDayYearHourMinute).Some? then Strptime(v, MonthDayYearHourMinute)
                                   else Strptime(v, MonthDayYear)
  {
    assert CreationDateFormats[0] == MonthDayYearHourMinute;
    assert CreationDateFormats[1] == MonthDayYearHourMinuteEpoch;
    assert CreationDateFormats[2] == MonthDayYear;
  }

  /** The value captured from a key, whitespace, a value without newlines or leading space, and a newline. */
  lemma CreationDateValueOf(ws: string, v: string)
    requires forall k :: 0 <= k < |ws| ==> IsSpace(ws[k])
    requires '\n' !in v && v != [] && !IsSpace(v[0])
    ensures CreationDateValue(CreationDateKey + ws + v + "\n") == Some(v)
  {
    var line := CreationDateKey + ws + v + "\n";
    assert line[..|CreationDateKey|] == CreationDateKey;
    var rest := line[|CreationDateKey|..];
    assert rest == ws + (v + "\n");
    LeadingSpacesOf(ws, v + "\n");
    assert rest[|ws|..] == v + "\n";
    var w := rest[|ws|..];
    assert w[..|w| - 1] == v;
  }

  /**
   * Any value that spells a date in one of the two working formats, written after the key
   * and any whitespace on a header line, is read back as that date. This covers unpadded
   * fields such as `8/13/2012 10:20` and dates without a time.
   */
  lemma ExtractDateOfSpelling(ws: string, v: string, d: Date)
    requires forall k :: 0 <= k < |ws| ==> IsSpace(ws[k])
    requires '\n' !in v
    requires SpellsMonthDayYearHourMinute(v, d) || SpellsMonthDayYear(v, d)
    ensures ExtractDate(CreationDateKey + ws + v + "\n") == Some(d)
  {
    if SpellsMonthDayYearHourMinute(v, d) {
      ExtractDateOfDateTime(ws, v, d);
    } else {
      ExtractDateOfDateOnly(ws, v, d);
    }
  }

  lemma ExtractDateOfDateTime(ws: string, v: string, d: Date)
    requires forall k :: 0 <= k < |ws| ==> IsSpace(ws[k])
    requires '\n' !in v
    requires SpellsMonthDayYearHourMinute(v, d)
    ensures ExtractDate(CreationDateKey + ws + v + "\n") == Some(d)
  {
    var ms, ds, ys, ws', hs, mis :| && v == MonthDayYearHourMinuteText(ms, ds, ys, ws', hs, mis)
                                   && MonthField(ms) && DayField(ds) && YearField(ys)
                                   && Blank(ws') && HourField(hs) && MinuteField(mis)
                                   && d == FieldsDate(ms, ds, ys, Decimal(hs), Decimal(mis))
                                   && ValidDate(d);
    assert v[0] == ms[0];
    CreationDateValueOf(ws, v);
    ExtractDateFallback(CreationDateKey + ws + v + "\n");
    StrptimeMonthDayYearHourMinuteSpec(v, d);
  }

  lemma ExtractDateOfDateOnly(ws: string, v: string, d: Date)
    requires forall k :: 0 <= k < |ws| ==> IsSpace(ws[k])
    requires '\n' !in v
    requires SpellsMonthDayYear(v, d)
    ensures ExtractDate(CreationDateKey + ws + v + "\n") == Some(d)
  {
    var ms, ds, ys :| && v == MonthDayYearText(ms, ds, ys)
                      && MonthField(ms) && DayField(ds) && YearField(ys)
                      && d == FieldsDate(ms, ds, ys, 0, 0)
                      && ValidDate(d);
    assert v[0] == ms[0];
    CreationDateValueOf(ws, v);
    MonthDayYearTextIsNoTime(ms, ds, ys);
    ExtractDateFallback(CreationDateKey + ws + v + "\n");
    StrptimeMonthDayYearSpec(v, d);
  }

  /**
   * A header line written with the first format is read back as the date it was written
   * from: `meta-creation_date: MM/DD/YYYY HH:MM` followed by the line's newline.
   */
  lemma ExtractDateRoundTrip(d: Date)
    requires ValidDate(d)
    ensures ExtractDate(CreationDateKey + " " + FormatDate(d) + "\n") == Some(d)
  {
    FormatDateCharacters(d);
    CreationDateValueOf(" ", FormatDate(d));
    ExtractDateFallback(CreationDateKey + " " + FormatDate(d) + "\n");
    FormatDateRoundTrip(d);
  }

  // ----- Explicit tags: match('^Tags:', line), then split on ',' and strip -----

  const TagsKey: string := "Tags:"

  /**
   * `_extractExplicitTags`: for a line beginning with exactly `Tags:`, the rest of the line
   * split at every comma, each piece stripped; otherwise no tags.
   */
  function ExtractExplicitTags(line: string): (r: seq<string>)
    ensures r == [] <==> !StartsWith(line, TagsKey)
    ensures StartsWith(line, TagsKey) ==> |r| == Count(line[|TagsKey|..], ',') + 1
    ensures forall k :: 0 <= k < |r| ==> ',' !in r[k] && IsStripped(r[k])
  {
    if StartsWith(line, TagsKey) then
      var pieces := Split(line[|TagsKey|..], ',');
      seq(|pieces|, k requires 0 <= k < |pieces| => StripInside(pieces[k]))
    else []
  }

  /** Stripping keeps a piece free of commas. */
  function StripInside(piece: string): (r: string)
    ensures r == Strip(piece)
    ensures ',' !in piece ==> ',' !in r
  {
    var r := Strip(piece);
    assert ',' !in piece ==> ',' !in r by {
      var i :| PaddedAt(piece, r, i);
      if ',' in r {
        var k :| 0 <= k < |r| && r[k] == ',';
        assert piece[i + k] == ',';
      }
    }
    r
  }

  /**
   * The explicit tags are exactly the pieces of the text after `Tags:` cut at the commas:
   * joining the unstripped pieces with commas gives that text back.
   */
  lemma ExplicitTagsArePieces(line: string)
    requires StartsWith(line, TagsKey)
    ensures var pieces := Split(line[|TagsKey|..], ',');
            && Join(pieces, ',') == line[|TagsKey|..]
            && |ExtractExplicitTags(line)| == |pieces|
            && forall k :: 0 <= k < |pieces| ==> ExtractExplicitTags(line)[k] == Strip(pieces[k])
  {
    JoinSplit(line[|TagsKey|..], ',');
  }

  /** A tags line never parses as a date line: the two keys differ in their first character. */
  lemma TagsLineIsNotDateLine(line: string)
    requires StartsWith(line, TagsKey)
    ensures ExtractDate(line).None?
  {
    assert line[0] == 'T' && CreationDateKey[0] == 'm';
    assert !StartsWith(line, CreationDateKey);
    assert CreationDateValue(line) == None;
  }

  /** Only the exact spelling `Tags:` is recognised: an upper-case `TAGS:` line yields nothing. */
  lemma UpperCaseTagsKeyNotRecognised()
    ensures ExtractExplicitTags("TAGS: atag, btag") == []
  {
    assert "TAGS: atag, btag"[..5][1] == 'A';
  }

  // ----- Excerpt: search(r'<p>(.*?)</p>?', text, IGNORECASE | DOTALL) -----

  /**
   * `_extractExcerpt`: the text between the first `<p>` and the first `</p` after it, both in
   * any case; empty when either is missing. A later `<p>` cannot help: it would need a `</p`
   * that the first one already sees.
   */
  function ExtractExcerpt(text: string): (r: string)
    ensures r != [] ==> exists i :: ExcerptAt(text, i, r)
    ensures forall i, s :: ExcerptAt(text, i, s) ==> r == s
    ensures (forall i :: !MatchesAtCI(text, "<p>", i)) ==> r == []
  {
    match FindCI(text, "<p>", 0)
    case None => []
    case Some(i) =>
      match FindCI(text, "</p", i + 3)
      case None => []
      case Some(j) =>
        assert ExcerptAt(text, i, text[i + 3..j]);
        forall i', s | ExcerptAt(text, i', s)
          ensures s == text[i + 3..j]
        {
          ExcerptAtUnique(text, i, text[i + 3..j], i', s);
        }
        text[i + 3..j]
  }

  /**
   * `r` is the excerpt taken after the opening tag at `i`: that tag is the first `<p>`, and
   * `r` runs from it to the first `</p` that follows.
   */
  predicate ExcerptAt(text: string, i: nat, r: string) {
    && MatchesAtCI(text, "<p>", i)
    && (forall k :: 0 <= k < i ==> !MatchesAtCI(text, "<p>", k))
    && i + 3 + |r| <= |text|
    && r == text[i + 3..i + 3 + |r|]
    && MatchesAtCI(text, "</p", i + 3 + |r|)
    && (forall k :: i + 3 <= k < i + 3 + |r| ==> !MatchesAtCI(text, "</p", k))
  }

  /** There is at most one excerpt: both tags are the first of their kind. */
  lemma ExcerptAtUnique(text: string, i: nat, r: string, i': nat, r': string)
    requires ExcerptAt(text, i, r) && ExcerptAt(text, i', r')
    ensures i == i' && r == r'
  {
  }

  /** When the first opening tag has no closing tag after it, there is no excerpt. */
  lemma UnclosedParagraphHasNoExcerpt(text: string, i: nat)
    requires MatchesAtCI(text, "<p>", i)
    requires forall k :: 0 <= k < i ==> !MatchesAtCI(text, "<p>", k)
    requires forall k :: i + 3 <= k ==> !MatchesAtCI(text, "</p", k)
    ensures ExtractExcerpt(text) == []
  {
    match FindCI(text, "<p>", 0)
    case None =>
    case Some(i0) =>
      assert i0 == i;
  }

  // ----- Body tags: finditer(r'(\[\[(\w+)[^[]*?\]\])+', text), group 2 of each match -----

  /** End of the run of word characters that starts at `i`. */
  function WordEnd(s: string, i: nat): (e: nat)
    requires i <= |s|
    ensures i <= e <= |s|
    ensures forall k :: i <= k < e ==> IsWordChar(s[k])
    ensures e < |s| ==> !IsWordChar(s[e])
    decreases |s| - i
  {
    if i < |s| && IsWordChar(s[i]) then WordEnd(s, i + 1) else i
  }

  /** A `]]` ending at `e` is reached from `j` without crossing a `[`. */
  predicate ClosesAt(s: string, j: nat, e: nat) {
    && j + 2 <= e <= |s|
    && s[e - 2] == ']' && s[e - 1] == ']'
    && forall k :: j <= k < e - 2 ==> s[k] != '['
  }

  /** ... and it is the first such `]]`: the lazy `*?` stops there. */
  predicate FirstCloseAt(s: string, j: nat, e: nat) {
    ClosesAt(s, j, e) && forall e' :: 0 <= e' < e ==> !ClosesAt(s, j, e')
  }

  /**
   * `[^[]*?\]\]` at `j`: the end of the first `]]` reached from `j` without crossing a `[`,
   * or nothing when a `[` or the end of the text comes first. (Shortening the word run
   * before it never helps: word characters are not brackets.)
   */
  function CloseEnd(s: string, j: nat): (r: Option<nat>)
    requires j <= |s|
    ensures r.Some? ==> FirstCloseAt(s, j, r.value)
    ensures r.None? ==> forall e :: !ClosesAt(s, j, e)
    decreases |s| - j
  {
    if j + 2 <= |s| && s[j] == ']' && s[j + 1] == ']' then Some(j + 2)
    else if j < |s| && s[j] != '[' then
      assert forall e :: ClosesAt(s, j, e) ==> ClosesAt(s, j + 1, e);
      assert forall e :: ClosesAt(s, j + 1, e) ==> ClosesAt(s, j, e);
      CloseEnd(s, j + 1)
    else None
  }

  /** `[[` at `p` is followed by `name`, a whole non-empty run of word characters. */
  predicate NameAt(s: string, p: nat, name: string) {
    && p + 2 + |name| <= |s|
    && s[p] == '[' && s[p + 1] == '['
    && |name| > 0
    && s[p + 2..p + 2 + |name|] == name
    && (forall k :: 0 <= k < |name| ==> IsWordChar(name[k]))
    && (p + 2 + |name| == |s| || !IsWordChar(s[p + 2 + |name|]))
  }

  /** A complete marker `[[name ...]]` starts at `p` and its `]]` ends at `e`. */
  predicate MarkerEndsAt(s: string, p: nat, name: string, e: nat) {
    NameAt(s, p, name) && ClosesAt(s, p + 2 + |name|, e)
  }

  /** The word run after `[[` is the whole run `WordEnd` finds. */
  lemma NameAtWordEnd(s: string, p: nat, name: string)
    requires NameAt(s, p, name)
    ensures WordEnd(s, p + 2) == p + 2 + |name|
  {
    assert forall k :: p + 2 <= k < p + 2 + |name| ==> s[k] == name[k - p - 2];
  }

  /** A complete marker's name is the whole word run, and a `]]` closes it. */
  lemma MarkerEndsAtFound(s: string, p: nat, name: string, e: nat)
    requires MarkerEndsAt(s, p, name, e)
    ensures p + 2 + |name| == WordEnd(s, p + 2)
    ensures CloseEnd(s, p + 2 + |name|).Some?
  {
    NameAtWordEnd(s, p, name);
  }

  /**
   * One marker `\[\[(\w+)[^[]*?\]\]` at `p`: its name, the whole word run after `[[`, and
   * the index just after the first `]]` that follows with no `[` in between; nothing when
   * no such marker starts at `p`.
   */
  function MarkerAt(s: string, p: nat): (r: Option<(string, nat)>)
    requires p <= |s|
    ensures r.Some? ==> p < r.value.1 <= |s|
    ensures r.Some? ==> NameAt(s, p, r.value.0) && FirstCloseAt(s, p + 2 + |r.value.0|, r.value.1)
    ensures r.None? ==> forall name, e :: !MarkerEndsAt(s, p, name, e)
  {
    if p + 2 <= |s| && s[p] == '[' && s[p + 1] == '[' then
      var q := WordEnd(s, p + 2);
      if q == p + 2 || CloseEnd(s, q).None? then
        assert forall name, e :: MarkerEndsAt(s, p, name, e) ==> p + 2 + |name| == q && CloseEnd(s, q).Some? by {
          forall name, e | MarkerEndsAt(s, p, name, e)
            ensures p + 2 + |name| == q && CloseEnd(s, q).Some?
          {
            MarkerEndsAtFound(s, p, name, e);
          }
        }
        None
      else
        Some((s[p + 2..q], CloseEnd(s, q).value))
    else None
  }

  /**
   * A marker never starts inside another: the second `[` of its opening is followed by a
   * word character, and no `[` follows until its closing `]]`.
   */
  lemma NoMarkerInside(s: string, p: nat, q: nat)
    requires p < q <= |s| && MarkerAt(s, p).Some? && MarkerAt(s, q).Some?
    ensures MarkerAt(s, p).value.1 <= q
  {
    var (name, e) := MarkerAt(s, p).value;
    assert s[p + 2] == name[0];
    assert forall k :: p + 2 <= k < p + 2 + |name| ==> s[k] == name[k - p - 2];
  }

  /**
   * `name` is reported by a match that starts at or after `p`: it names a marker there
   * that no marker directly follows, the last one of its run.
   */
  ghost predicate ReportedFrom(s: string, p: nat, name: string) {
    exists q, e :: p <= q < |s| && MarkerAt(s, q) == Some((name, e)) && MarkerAt(s, e).None?
  }

  lemma ReportedFromEarlier(s: string, p: nat, q: nat, names: seq<string>)
    requires p <= q
    requires forall k :: 0 <= k < |names| ==> ReportedFrom(s, q, names[k])
    ensures forall k :: 0 <= k < |names| ==> ReportedFrom(s, p, names[k])
  {
    forall k | 0 <= k < |names|
      ensures ReportedFrom(s, p, names[k])
    {
      assert ReportedFrom(s, q, names[k]);
      var at, e :| q <= at < |s| && MarkerAt(s, at) == Some((names[k], e)) && MarkerAt(s, e).None?;
    }
  }

  /**
   * The outer `(...)+` after a marker ending at `e` with name `name`: further markers that
   * follow directly are swallowed, and group 2 keeps the name of the last one. The run
   * stops where no marker starts.
   */
  function RunEnd(s: string, e: nat, name: string): (r: (string, nat))
    requires e <= |s|
    ensures e <= r.1 <= |s|
    ensures MarkerAt(s, r.1).None?
    ensures MarkerAt(s, e).None? ==> r == (name, e)
    ensures MarkerAt(s, e).Some? ==> exists q :: e <= q < r.1 && MarkerAt(s, q) == Some((r.0, r.1))
    ensures forall q, n, e' :: e <= q < r.1 && MarkerAt(s, q) == Some((n, e')) && MarkerAt(s, e').None?
                               ==> r == (n, e')
    decreases |s| - e
  {
    match MarkerAt(s, e)
    case None => (name, e)
    case Some((next, e2)) =>
      var r := RunEnd(s, e2, next);
      assert MarkerAt(s, e2).None? ==> MarkerAt(s, e) == Some((r.0, r.1));
      assert forall q, n, e' :: e <= q < r.1 && MarkerAt(s, q) == Some((n, e')) && MarkerAt(s, e').None?
                                ==> r == (n, e') by {
        forall q, n, e' | e <= q < r.1 && MarkerAt(s, q) == Some((n, e')) && MarkerAt(s, e').None?
          ensures r == (n, e')
        {
          if q > e {
            NoMarkerInside(s, e, q);
          }
        }
      }
      r
  }

  /** `finditer` from `p`: try a match at each position, resuming after each match found. */
  function TagsFrom(s: string, p: nat): (r: seq<string>)
    requires p <= |s|
    ensures forall k :: 0 <= k < |r| ==> ReportedFrom(s, p, r[k])
    decreases |s| - p
  {
    if p == |s| then []
    else match MarkerAt(s, p)
      case None =>
        var r := TagsFrom(s, p + 1);
        ReportedFromEarlier(s, p, p + 1, r);
        r
      case Some((name, e)) =>
        var (last, end) := RunEnd(s, e, name);
        var rest := TagsFrom(s, end);
        assert ReportedFrom(s, p, last) by {
          if MarkerAt(s, e).Some? {
            var q :| e <= q < end && MarkerAt(s, q) == Some((last, end));
            assert p <= q < |s|;
          } else {
            assert MarkerAt(s, p) == Some((last, e));
          }
        }
        ReportedFromEarlier(s, p, end, rest);
        [last] + rest
  }

  /**
   * Every marker at or after `p` that no marker directly follows is found: the scan either
   * reaches it, or reaches an earlier marker whose run it ends.
   */
  lemma {:induction false} TagsFromFinds(s: string, p: nat, q: nat, name: string, e: nat)
    requires p <= q < |s| && MarkerAt(s, q) == Some((name, e)) && MarkerAt(s, e).None?
    ensures name in TagsFrom(s, p)
    decreases |s| - p, 1
  {
    if MarkerAt(s, p).None? {
      TagsFromFindsAfterSkip(s, p, q, name, e);
    } else {
      TagsFromFindsAfterMatch(s, p, q, name, e);
    }
  }

  lemma {:induction false} TagsFromFindsAfterSkip(s: string, p: nat, q: nat, name: string, e: nat)
    requires p <= q < |s| && MarkerAt(s, q) == Some((name, e)) && MarkerAt(s, e).None?
    requires MarkerAt(s, p).None?
    ensures name in TagsFrom(s, p)
    decreases |s| - p, 0
  {
    TagsFromSkip(s, p);
    TagsFromFinds(s, p + 1, q, name, e);
  }

  lemma {:induction false} TagsFromFindsAfterMatch(s: string, p: nat, q: nat, name: string, e: nat)
    requires p <= q < |s| && MarkerAt(s, q) == Some((name, e)) && MarkerAt(s, e).None?
    requires MarkerAt(s, p).Some?
    ensures name in TagsFrom(s, p)
    decreases |s| - p, 0
  {
    TagsFromMatch(s, p);
    var run := RunEnd(s, MarkerAt(s, p).value.1, MarkerAt(s, p).value.0);
    if q < run.1 {
      RunReports(s, p, q, name, e);
      assert TagsFrom(s, p)[0] == name;
    } else {
      TagsFromFinds(s, run.1, q, name, e);
    }
  }

  /** A match at `p` contributes the name its run keeps, and the scan resumes after the run. */
  lemma TagsFromMatch(s: string, p: nat)
    requires p < |s| && MarkerAt(s, p).Some?
    ensures var (last, end) := RunEnd(s, MarkerAt(s, p).value.1, MarkerAt(s, p).value.0);
            TagsFrom(s, p) == [last] + TagsFrom(s, end)
  {
  }

  /** A marker inside the run of a match at `p`, with no marker right after it, is the one kept. */
  lemma RunReports(s: string, p: nat, q: nat, name: string, e: nat)
    requires p <= q < |s| && MarkerAt(s, p).Some?
    requires MarkerAt(s, q) == Some((name, e)) && MarkerAt(s, e).None?
    requires q < RunEnd(s, MarkerAt(s, p).value.1, MarkerAt(s, p).value.0).1
    ensures RunEnd(s, MarkerAt(s, p).value.1, MarkerAt(s, p).value.0).0 == name
  {
    if q == p {
      assert RunEnd(s, e, name) == (name, e);
    } else {
      NoMarkerInside(s, p, q);
    }
  }

  /** `finditer` finds nothing from `p` exactly when no marker starts at or after `p`. */
  lemma {:induction false} TagsFromEmpty(s: string, p: nat)
    requires p <= |s|
    ensures TagsFrom(s, p) == [] <==> forall q :: p <= q < |s| ==> MarkerAt(s, q).None?
    decreases |s| - p
  {
    if p < |s| && MarkerAt(s, p).None? {
      TagsFromEmpty(s, p + 1);
    }
  }

  /**
   * `_extractTagsFromBody`: one tag name per match, in text order. The names are exactly
   * those of the markers of the text that no marker directly follows, and there are none
   * exactly when no marker starts anywhere.
   */
  function ExtractTagsFromBody(text: string): (r: seq<string>)
    ensures forall name :: name in r <==> ReportedFrom(text, 0, name)
    ensures r == [] <==> forall q :: 0 <= q < |text| ==> MarkerAt(text, q).None?
  {
    TagsFromEmpty(text, 0);
    assert forall name :: ReportedFrom(text, 0, name) ==> name in TagsFrom(text, 0) by {
      forall name | ReportedFrom(text, 0, name)
        ensures name in TagsFrom(text, 0)
      {
        var q, e :| 0 <= q < |text| && MarkerAt(text, q) == Some((name, e)) && MarkerAt(text, e).None?;
        TagsFromFinds(text, 0, q, name, e);
      }
    }
    TagsFrom(text, 0)
  }

  /** A text with no `[[` in it has no body tags. */
  lemma {:induction false} NoOpeningNoBodyTags(s: string, p: nat)
    requires p <= |s|
    requires forall i :: 0 <= i < |s| - 1 ==> !(s[i] == '[' && s[i + 1] == '[')
    ensures TagsFrom(s, p) == []
    decreases |s| - p
  {
    if p < |s| {
      NoOpeningNoBodyTags(s, p + 1);
    }
  }

  // A well-formed marker `[[` name text `]]`, where the text starts with a non-word
  // character (or is empty) and holds no bracket.

  predicate IsMarker(name: string, words: string) {
    && |name| > 0
    && (forall k :: 0 <= k < |name| ==> IsWordChar(name[k]))
    && (words == [] || !IsWordChar(words[0]))
    && (forall k :: 0 <= k < |words| ==> words[k] != '[' && words[k] != ']')
  }

  function Marker(name: string, words: string): string {
    "[[" + name + words + "]]"
  }

  lemma {:induction false} WordEndOver(a: string, w: string, b: string)
    requires forall k :: 0 <= k < |w| ==> IsWordChar(w[k])
    requires b == [] || !IsWordChar(b[0])
    ensures WordEnd(a + w + b, |a|) == |a| + |w|
    decreases |w|
  {
    if w != [] {
      assert a + w + b == (a + [w[0]]) + w[1..] + b;
      WordEndOver(a + [w[0]], w[1..], b);
    }
  }

  lemma {:induction false} CloseEndOver(a: string, t: string, b: string)
    requires forall k :: 0 <= k < |t| ==> t[k] != '[' && t[k] != ']'
    ensures CloseEnd(a + t + "]]" + b, |a|) == Some(|a| + |t| + 2)
    decreases |t|
  {
    var s := a + t + "]]" + b;
    if t == [] {
      assert s[|a|] == ']' && s[|a| + 1] == ']';
    } else {
      assert s == (a + [t[0]]) + t[1..] + "]]" + b;
      assert s[|a|] == t[0];
      CloseEndOver(a + [t[0]], t[1..], b);
    }
  }

  lemma MarkerAtFrom(s: string, p: nat, q: nat, e: nat)
    requires p + 2 < q <= |s| && s[p] == '[' && s[p + 1] == '['
    requires WordEnd(s, p + 2) == q && CloseEnd(s, q) == Some(e)
    ensures MarkerAt(s, p) == Some((s[p + 2..q], e))
  {
  }

  lemma MarkerWordEnd(pre: string, name: string, words: string, post: string)
    requires IsMarker(name, words)
    ensures WordEnd(pre + Marker(name, words) + post, |pre| + 2) == |pre| + 2 + |name|
  {
    var tail := words + "]]" + post;
    assert pre + Marker(name, words) + post == (pre + "[[") + name + tail;
    assert tail[0] == (if words == [] then ']' else words[0]);
    WordEndOver(pre + "[[", name, tail);
  }

  lemma MarkerCloseEnd(pre: string, name: string, words: string, post: string)
    requires IsMarker(name, words)
    ensures CloseEnd(pre + Marker(name, words) + post, |pre| + 2 + |name|)
            == Some(|pre| + |Marker(name, words)|)
  {
    assert pre + Marker(name, words) + post == (pre + "[[" + name) + words + "]]" + post;
    CloseEndOver(pre + "[[" + name, words, post);
  }

  lemma MarkerOpening(pre: string, name: string, words: string, post: string)
    ensures var s := pre + Marker(name, words) + post;
            && |pre| + 2 + |name| <= |s|
            && s[|pre|] == '[' && s[|pre| + 1] == '['
            && s[|pre| + 2..|pre| + 2 + |name|] == name
  {
    assert pre + Marker(name, words) + post == (pre + "[[") + name + (words + "]]" + post);
  }

  /** A well-formed marker is matched in full, whatever surrounds it, and reports its name. */
  lemma MarkerMatched(pre: string, name: string, words: string, post: string)
    requires IsMarker(name, words)
    ensures var s := pre + Marker(name, words) + post;
            MarkerAt(s, |pre|) == Some((name, |pre| + |Marker(name, words)|))
  {
    var s := pre + Marker(name, words) + post;
    MarkerWordEnd(pre, name, words, post);
    MarkerCloseEnd(pre, name, words, post);
    MarkerOpening(pre, name, words, post);
    MarkerAtFrom(s, |pre|, |pre| + 2 + |name|, |pre| + |Marker(name, words)|);
  }

  /**
   * Markers that abut form one match of the outer `+`, and only the last name is reported:
   * `[[a x]][[b y]]` yields `b` alone.
   */
  lemma AbuttingMarkersReportLastName(n1: string, w1: string, n2: string, w2: string)
    requires IsMarker(n1, w1) && IsMarker(n2, w2)
    ensures ExtractTagsFromBody(Marker(n1, w1) + Marker(n2, w2)) == [n2]
  {
    var m1, m2 := Marker(n1, w1), Marker(n2, w2);
    var s := m1 + m2;
    assert MarkerAt(s, 0) == Some((n1, |m1|)) by {
      MarkerMatched([], n1, w1, m2);
      assert [] + m1 + m2 == s;
    }
    assert MarkerAt(s, |m1|) == Some((n2, |s|)) by {
      MarkerMatched(m1, n2, w2, []);
      assert m1 + m2 + [] == s;
    }
    TagsFromAbutting(s, n1, |m1|, n2);
  }

  /** A match at the start whose marker is directly followed by a last marker reports that one. */
  lemma TagsFromAbutting(s: string, n1: string, e1: nat, n2: string)
    requires 0 < |s| && MarkerAt(s, 0) == Some((n1, e1)) && e1 <= |s|
    requires MarkerAt(s, e1) == Some((n2, |s|))
    ensures TagsFrom(s, 0) == [n2]
  {
    assert RunEnd(s, |s|, n2) == (n2, |s|);
    assert RunEnd(s, e1, n1) == (n2, |s|);
    assert TagsFrom(s, |s|) == [];
  }

  /** A match that is not followed directly by another marker reports its own name. */
  lemma TagsFromLoneMarker(s: string, p: nat, name: string, e: nat)
    requires p < |s| && MarkerAt(s, p) == Some((name, e))
    requires MarkerAt(s, e) == None
    ensures TagsFrom(s, p) == [name] + TagsFrom(s, e)
  {
    assert RunEnd(s, e, name) == (name, e);
  }

  /** A position where no marker starts contributes nothing. */
  lemma TagsFromSkip(s: string, p: nat)
    requires p < |s| && MarkerAt(s, p) == None
    ensures TagsFrom(s, p) == TagsFrom(s, p + 1)
  {
  }

  /** Two matches with one non-marker position between them report both names. */
  lemma TagsFromTwoMatches(s: string, gap: nat, n1: string, n2: string)
    requires gap < |s| && MarkerAt(s, 0) == Some((n1, gap))
    requires MarkerAt(s, gap) == None
    requires MarkerAt(s, gap + 1) == Some((n2, |s|))
    ensures TagsFrom(s, 0) == [n1, n2]
  {
    TagsFromSkipToFinal(s, gap, n2);
    TagsFromLoneMarker(s, 0, n1, gap);
  }

  /** A non-marker position followed by a marker that ends the text reports that marker only. */
  lemma TagsFromSkipToFinal(s: string, gap: nat, n2: string)
    requires gap + 1 < |s| && MarkerAt(s, gap) == None
    requires MarkerAt(s, gap + 1) == Some((n2, |s|))
    ensures TagsFrom(s, gap) == [n2]
  {
    TagsFromFinalMarker(s, gap + 1, n2);
    TagsFromSkip(s, gap);
  }

  /** A marker that ends the text is the last match. */
  lemma TagsFromFinalMarker(s: string, p: nat, name: string)
    requires p < |s| && MarkerAt(s, p) == Some((name, |s|))
    ensures TagsFrom(s, p) == [name]
  {
    assert RunEnd(s, |s|, name) == (name, |s|);
    assert TagsFrom(s, |s|) == [];
  }

  lemma SpaceIsNoMarker(s: string, p: nat)
    requires p < |s| && s[p] == ' '
    ensures MarkerAt(s, p) == None
  {
  }

  lemma FirstOfSeparated(n1: string, w1: string, n2: string, w2: string)
    requires IsMarker(n1, w1)
    ensures var m1 := Marker(n1, w1);
            MarkerAt(m1 + " " + Marker(n2, w2), 0) == Some((n1, |m1|))
  {
    var m1, m2 := Marker(n1, w1), Marker(n2, w2);
    MarkerMatched([], n1, w1, " " + m2);
    assert [] + m1 + (" " + m2) == m1 + " " + m2;
  }

  lemma SecondOfSeparated(n1: string, w1: string, n2: string, w2: string)
    requires IsMarker(n2, w2)
    ensures var s := Marker(n1, w1) + " " + Marker(n2, w2);
            MarkerAt(s, |Marker(n1, w1)| + 1) == Some((n2, |s|))
  {
    var m1, m2 := Marker(n1, w1), Marker(n2, w2);
    MarkerMatched(m1 + " ", n2, w2, []);
    assert (m1 + " ") + m2 + [] == m1 + " " + m2;
  }

  /**
   * Markers separated by a space are separate matches, each reporting its own name:
   * `[[a x]] [[b y]]` yields `a` then `b`.
   */
  lemma SeparatedMarkersReportBothNames(n1: string, w1: string, n2: string, w2: string)
    requires IsMarker(n1, w1) && IsMarker(n2, w2)
    ensures ExtractTagsFromBody(Marker(n1, w1) + " " + Marker(n2, w2)) == [n1, n2]
  {
    var m1 := Marker(n1, w1);
    var s := m1 + " " + Marker(n2, w2);
    FirstOfSeparated(n1, w1, n2, w2);
    SecondOfSeparated(n1, w1, n2, w2);
    SpaceIsNoMarker(s, |m1|);
    TagsFromTwoMatches(s, |m1|, n1, n2);
  }
}
