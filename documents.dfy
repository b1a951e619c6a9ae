/**
 * A blog post as `Document` holds it (url, excerpt, title, creation date, tags) and `parse`,
 * which fills a document in from its text: the first line is the title, the header lines
 * that follow may set the date and the tags, and the whole text is then searched for
 * `[[name words]]` markers and for the first paragraph.
 */
module Documents {
  import opened Options
  import opened Strings
  import opened Dates
  import opened Extractors

  // ----- The text as cStringIO's readline hands it out -----

  /** End of the line that starts at `pos`: just after its newline, or the end of the text. */
  function LineEnd(text: string, pos: nat): (e: nat)
    requires pos <= |text|
    ensures pos <= e <= |text|
    ensures pos < |text| ==> pos < e
    ensures forall k :: pos <= k < e - 1 ==> text[k] != '\n'
    ensures pos < e < |text| ==> text[e - 1] == '\n'
    decreases |text| - pos
  {
    if pos == |text| then pos
    else if text[pos] == '\n' then pos + 1
    else LineEnd(text, pos + 1)
  }

  /** The lines that successive `readline` calls return from `pos` on, up to the empty string. */
  function LinesFrom(text: string, pos: nat): (r: seq<string>)
    requires pos <= |text|
    ensures forall k :: 0 <= k < |r| ==> r[k] != []
    decreases |text| - pos
  {
    if pos == |text| then []
    else [text[pos..LineEnd(text, pos)]] + LinesFrom(text, LineEnd(text, pos))
  }

  /**
   * Every line but the last ends with its newline, and no line holds a newline anywhere
   * else: `readline` cuts just after each newline.
   */
  lemma {:induction false} LinesFromShape(text: string, pos: nat)
    requires pos <= |text|
    ensures var r := LinesFrom(text, pos);
            forall k :: 0 <= k < |r| - 1 ==> r[k][|r[k]| - 1] == '\n'
    ensures var r := LinesFrom(text, pos);
            forall k, m :: 0 <= k < |r| && 0 <= m < |r[k]| - 1 ==> r[k][m] != '\n'
    decreases |text| - pos
  {
    if pos < |text| {
      var e := LineEnd(text, pos);
      LinesFromShape(text, e);
      var r := LinesFrom(text, pos);
      assert r[1..] == LinesFrom(text, e);
      assert r[0] == text[pos..e];
    }
  }

  function Concat(lines: seq<string>): string {
    if lines == [] then [] else lines[0] + Concat(lines[1..])
  }

  /** The lines read from `pos` on are the rest of the text, cut after each newline. */
  lemma {:induction false} LinesCoverText(text: string, pos: nat)
    requires pos <= |text|
    ensures Concat(LinesFrom(text, pos)) == text[pos..]
    decreases |text| - pos
  {
    if pos < |text| {
      var e := LineEnd(text, pos);
      LinesCoverText(text, e);
      assert text[pos..] == text[pos..e] + text[e..];
    }
  }

  // ----- The header loop of _parseLines -----

  /**
   * The header loop over `lines`, starting from `date` and `tags`: a line with a parseable
   * creation date replaces the date, the first line with explicit tags replaces the tags and
   * ends the loop.
   */
  function HeaderScan(lines: seq<string>, date: Date, tags: seq<string>): (r: (Date, seq<string>))
    ensures ValidDate(date) ==> ValidDate(r.0)
  {
    if lines == [] then (date, tags)
    else match ExtractDate(lines[0])
      case Some(d) => HeaderScan(lines[1..], d, tags)
      case None =>
        var t := ExtractExplicitTags(lines[0]);
        if t != [] then (date, t) else HeaderScan(lines[1..], date, tags)
  }

  /** One turn of the header loop on the line that starts at `pos`. */
  lemma HeaderScanStep(text: string, pos: nat, date: Date, tags: seq<string>)
    requires pos < |text|
    ensures var line := text[pos..LineEnd(text, pos)];
            var rest := LinesFrom(text, LineEnd(text, pos));
            HeaderScan(LinesFrom(text, pos), date, tags)
            == match ExtractDate(line)
               case Some(d) => HeaderScan(rest, d, tags)
               case None =>
                 if ExtractExplicitTags(line) != [] then (date, ExtractExplicitTags(line))
                 else HeaderScan(rest, date, tags)
  {
    var lines := LinesFrom(text, pos);
    assert lines[0] == text[pos..LineEnd(text, pos)];
    assert lines[1..] == LinesFrom(text, LineEnd(text, pos));
  }

  /** Index of the first line that begins with `Tags:`, or the number of lines. */
  function TagsLineIndex(lines: seq<string>): (k: nat)
    ensures k <= |lines|
    ensures forall i :: 0 <= i < k ==> !StartsWith(lines[i], TagsKey)
    ensures k < |lines| ==> StartsWith(lines[k], TagsKey)
  {
    if lines == [] then 0
    else if StartsWith(lines[0], TagsKey) then 0
    else 1 + TagsLineIndex(lines[1..])
  }

  /** The date of the last line of `lines` with a parseable creation date, or `date` if none has. */
  function LastDate(lines: seq<string>, date: Date): (r: Date)
    ensures (forall i :: 0 <= i < |lines| ==> ExtractDate(lines[i]).None?) ==> r == date
    ensures r == date || exists i :: 0 <= i < |lines| && ExtractDate(lines[i]) == Some(r)
  {
    if lines == [] then date
    else match ExtractDate(lines[|lines| - 1])
      case Some(d) => d
      case None => LastDate(lines[..|lines| - 1], date)
  }

  /** When line `i` has a date and no later line has one, that date is the result. */
  lemma {:induction false} LastDateIsLastDateLine(lines: seq<string>, date: Date, i: nat)
    requires i < |lines| && ExtractDate(lines[i]).Some?
    requires forall j :: i < j < |lines| ==> ExtractDate(lines[j]).None?
    ensures LastDate(lines, date) == ExtractDate(lines[i]).value
    decreases |lines|
  {
    if i < |lines| - 1 {
      var init := lines[..|lines| - 1];
      assert ExtractDate(lines[|lines| - 1]).None?;
      assert init[i] == lines[i];
      forall j | i < j < |init|
        ensures ExtractDate(init[j]).None?
      {
        assert init[j] == lines[j];
      }
      LastDateIsLastDateLine(init, date, i);
    }
  }

  /** The date after reading `line`: its own date when it has a parseable one. */
  function DateAfter(line: string, date: Date): Date {
    match ExtractDate(line)
    case Some(d) => d
    case None => date
  }

  lemma {:induction false} LastDateCons(line: string, rest: seq<string>, date: Date)
    ensures LastDate([line] + rest, date) == LastDate(rest, DateAfter(line, date))
    decreases |rest|
  {
    var lines := [line] + rest;
    if rest != [] {
      assert lines[|lines| - 1] == rest[|rest| - 1];
      assert lines[..|lines| - 1] == [line] + rest[..|rest| - 1];
      LastDateCons(line, rest[..|rest| - 1], date);
    }
  }

  lemma PrefixCons(lines: seq<string>, k: nat)
    requires 1 <= k <= |lines|
    ensures lines[..k] == [lines[0]] + lines[1..][..k - 1]
  {
  }

  /** A line that is not a tags line only moves the date on. */
  lemma HeaderScanOtherLine(lines: seq<string>, date: Date, tags: seq<string>)
    requires lines != [] && !StartsWith(lines[0], TagsKey)
    ensures HeaderScan(lines, date, tags) == HeaderScan(lines[1..], DateAfter(lines[0], date), tags)
    ensures TagsLineIndex(lines) == 1 + TagsLineIndex(lines[1..])
  {
  }

  /**
   * The header loop, stated without the loop: the tags are those of the first `Tags:` line
   * (or unchanged when there is none), and the date is that of the last parseable date line
   * before it (or unchanged). Date lines after the tags line are never read.
   */
  lemma {:induction false} HeaderScanSpec(lines: seq<string>, date: Date, tags: seq<string>)
    ensures var k := TagsLineIndex(lines);
            HeaderScan(lines, date, tags)
            == (LastDate(lines[..k], date), if k < |lines| then ExtractExplicitTags(lines[k]) else tags)
    decreases |lines|
  {
    if lines != [] {
      if StartsWith(lines[0], TagsKey) {
        HeaderScanTagsLine(lines, date, tags);
      } else {
        HeaderScanSpec(lines[1..], DateAfter(lines[0], date), tags);
        HeaderScanOtherStep(lines, date, tags);
      }
    }
  }

  /** The loop stops at a first line that begins with `Tags:`, keeping the date. */
  lemma HeaderScanTagsLine(lines: seq<string>, date: Date, tags: seq<string>)
    requires lines != [] && StartsWith(lines[0], TagsKey)
    ensures var k := TagsLineIndex(lines);
            HeaderScan(lines, date, tags)
            == (LastDate(lines[..k], date), if k < |lines| then ExtractExplicitTags(lines[k]) else tags)
  {
    TagsLineIsNotDateLine(lines[0]);
    assert TagsLineIndex(lines) == 0;
  }

  /** The loop-free form carries over a first line that is not a tags line. */
  lemma HeaderScanOtherStep(lines: seq<string>, date: Date, tags: seq<string>)
    requires lines != [] && !StartsWith(lines[0], TagsKey)
    requires var rest, after := lines[1..], DateAfter(lines[0], date);
             var k := TagsLineIndex(rest);
             HeaderScan(rest, after, tags)
             == (LastDate(rest[..k], after), if k < |rest| then ExtractExplicitTags(rest[k]) else tags)
    ensures var k := TagsLineIndex(lines);
            HeaderScan(lines, date, tags)
            == (LastDate(lines[..k], date), if k < |lines| then ExtractExplicitTags(lines[k]) else tags)
  {
    var line, rest := lines[0], lines[1..];
    var k := TagsLineIndex(lines);
    HeaderScanOtherLine(lines, date, tags);
    PrefixCons(lines, k);
    LastDateCons(line, rest[..k - 1], date);
  }

  // ----- Tags from the body -----

  predicate NoDuplicates(s: seq<string>) {
    forall i, j :: 0 <= i < j < |s| ==> s[i] != s[j]
  }

  /**
   * `tuple(set(s))`: the distinct elements of `s`. The order of a Python set is arbitrary;
   * this model keeps each element's first occurrence.
   */
  function Dedup(s: seq<string>): (r: seq<string>)
    ensures forall x :: x in r <==> x in s
    ensures NoDuplicates(r)
    ensures |r| <= |s|
  {
    if s == [] then []
    else
      var r := Dedup(s[..|s| - 1]);
      var x := s[|s| - 1];
      assert forall y :: y in s <==> y in s[..|s| - 1] || y == x;
      if x in r then r else r + [x]
  }

  // ----- _parseLines as a function of the text and the fields before it -----

  /** The four fields that parsing may set. */
  datatype Fields = Fields(title: string, date: Date, tags: seq<string>, excerpt: string)

  /** The header lines: everything after the title line. */
  function HeaderLines(text: string): seq<string> {
    LinesFrom(text, LineEnd(text, 0))
  }

  /** A line stripped of its surrounding whitespace holds no newline. */
  lemma StrippedLineHasNoNewline(line: string)
    requires forall k :: 0 <= k < |line| - 1 ==> line[k] != '\n'
    ensures '\n' !in Strip(line)
  {
    var r := Strip(line);
    var i :| PaddedAt(line, r, i);
    forall m | 0 <= m < |r|
      ensures r[m] != '\n'
    {
      if m < |r| - 1 {
        assert r[m] == line[i + m];
      }
    }
  }

  /**
   * What `_parseLines` leaves in the fields, given the text and the fields before it: the
   * stripped first line as title; date and tags from the header loop; the body tags of the
   * whole text merged in when there are any; the first paragraph as excerpt when non-empty.
   */
  function ParseText(text: string, before: Fields): Fields {
    var first := LineEnd(text, 0);
    var title := Strip(text[..first]);
    var (date, tags) := HeaderScan(LinesFrom(text, first), before.date, before.tags);
    var body := ExtractTagsFromBody(text);
    var excerpt := ExtractExcerpt(text);
    Fields(title,
           date,
           if body != [] then Dedup(tags + body) else tags,
           if excerpt != [] then excerpt else before.excerpt)
  }

  /** `ParseText` in terms of the outcome of the header loop. */
  lemma ParseTextFromHeader(text: string, before: Fields, header: (Date, seq<string>))
    requires header == HeaderScan(HeaderLines(text), before.date, before.tags)
    ensures var body := ExtractTagsFromBody(text);
            var found := ExtractExcerpt(text);
            ParseText(text, before)
            == Fields(Strip(text[..LineEnd(text, 0)]), header.0,
                      if body != [] then Dedup(header.1 + body) else header.1,
                      if found != [] then found else before.excerpt)
  {
  }

  /**
   * Parsing, stated without the loop: the title is the first line stripped; the date is that
   * of the last parseable date line before the first `Tags:` line, or the earlier date; the
   * tags are that line's tags (or the earlier ones), merged without repeats with the body
   * tags when there are any; the excerpt changes only when the text has a non-empty one.
   */
  lemma ParseTextSpec(text: string, before: Fields)
    ensures var first := text[..LineEnd(text, 0)];
            var r := ParseText(text, before);
            && r.title == Strip(first) && IsStripped(r.title) && '\n' !in r.title
    ensures var lines := HeaderLines(text);
            var k := TagsLineIndex(lines);
            var r := ParseText(text, before);
            && r.date == LastDate(lines[..k], before.date)
            && (ValidDate(before.date) ==> ValidDate(r.date))
    ensures var lines := HeaderLines(text);
            var k := TagsLineIndex(lines);
            var explicit := if k < |lines| then ExtractExplicitTags(lines[k]) else before.tags;
            var body := ExtractTagsFromBody(text);
            var r := ParseText(text, before);
            && (body == [] ==> r.tags == explicit)
            && (body != [] ==> NoDuplicates(r.tags) && forall x :: x in r.tags <==> x in explicit || x in body)
    ensures var found := ExtractExcerpt(text);
            ParseText(text, before).excerpt == (if found != [] then found else before.excerpt)
  {
    StrippedLineHasNoNewline(text[..LineEnd(text, 0)]);
    HeaderScanSpec(HeaderLines(text), before.date, before.tags);
  }

  /**
   * A post, updated in place by `parse`. The clock read for a missing date and the file read
   * for `file` are parameters of the constructor.
   */
  class Document {
    var url: string
    var excerpt: string
    var title: string
    var date: Date
    var tags: seq<string>
    var file: Option<string>

    /** Fields that parsing may change, as a value. */
    function Current(): Fields
      reads this
    {
      Fields(title, date, tags, excerpt)
    }

    /** Every date a document holds is a real calendar date. */
    ghost predicate Valid()
      reads this
    {
      ValidDate(date)
    }

    /**
     * `Document(url='', excerpt='', title='', date=None, tags=None, file=None)`: `now`
     * stands for `datetime.now()`, used when no date is given, and `contents` for what
     * reading `file` yields. A file name that is missing or empty is not loaded.
     */
    constructor (now: Date, contents: string, url: string := "", excerpt: string := "", title: string := "",
                 date: Option<Date> := None, tags: seq<string> := [], file: Option<string> := None)
      requires ValidDate(now) && (date.Some? ==> ValidDate(date.value))
      ensures Valid()
      ensures this.url == url && this.file == file
      ensures var given := Fields(title, if date.Some? then date.value else now, tags, excerpt);
              Current() == if file.Some? && file.value != [] then ParseText(contents, given) else given
    {
      this.tags := tags;
      this.excerpt := excerpt;
      this.title := title;
      this.date := if date.Some? then date.value else now;
      this.url := url;
      this.file := file;
      new;
      if file.Some? && file.value != [] {
        Parse(contents);
      }
    }

    /**
     * The header loop of `_parseLines`, from the line that starts at `pos`: each parseable
     * date line sets the date, and the first line with explicit tags sets the tags and ends
     * the loop.
     */
    method ScanHeader(text: string, pos: nat)
      requires pos <= |text|
      modifies this
      ensures (date, tags) == HeaderScan(LinesFrom(text, pos), old(date), old(tags))
      ensures title == old(title) && excerpt == old(excerpt) && url == old(url) && file == old(file)
    {
      var at := pos;
      while at < |text|
        invariant pos <= at <= |text|
        invariant HeaderScan(LinesFrom(text, at), date, tags) == HeaderScan(LinesFrom(text, pos), old(date), old(tags))
        invariant title == old(title) && excerpt == old(excerpt) && url == old(url) && file == old(file)
        decreases |text| - at
      {
        var next := LineEnd(text, at);
        var line := text[at..next];
        HeaderScanStep(text, at, date, tags);
        var d := ExtractDate(line);
        if d.Some? {
          date := d.value;
        } else {
          var t := ExtractExplicitTags(line);
          if t != [] {
            tags := t;
            return;
          }
        }
        at := next;
      }
    }

    /**
     * `parse(text)`: read the title line, then the header lines, then search the whole text
     * for body tags and the excerpt.
     */
    method Parse(text: string)
      modifies this
      ensures Current() == ParseText(text, old(Current()))
      ensures old(Valid()) ==> Valid()
      ensures url == old(url) && file == old(file)
    {
      var first := LineEnd(text, 0);
      title := Strip(text[..first]);
      ScanHeader(text, first);
      ParseTextFromHeader(text, old(Current()), (date, tags));
      var bodyTags := ExtractTagsFromBody(text);
      if bodyTags != [] {
        tags := Dedup(tags + bodyTags);
      }
      var found := ExtractExcerpt(text);
      if found != [] {
        excerpt := found;
      }
    }
  }
}
