/** The logger script `confluence_decision_logger.py`: its markdown parser (every owner, status
    inferred from keywords), its decision renderer (heading, participants, description), and
    its page assembly, which sorts the decisions by creation date, newest first. */
module DecisionLogger {
  import opened Text
  import opened Markup
  import opened Decisions
  import opened Sync
  import opened Sorting

  // ================================================================ parsing

  const DecidedWords: seq<string> := ["Approved", "Accepted", "Decided"]
  const InProgressWords: seq<string> := ["In Progress", "Ongoing"]
  const DeferredWords: seq<string> := ["Deferred", "Postponed", "Planning"]

  /** The status of a section without a `**Status**:` line: the keyword groups are tried in a
      fixed order (decided, then in progress, then deferred) and the first group with a
      keyword in the section decides; with none the status is `OPEN`. */
  function InferredStatus(section: string): (r: string)
    ensures r == "DECIDED" <==> ContainsAnyWord(section, DecidedWords)
    ensures r == "DEFERRED" <==>
      !ContainsAnyWord(section, DecidedWords) && !ContainsAnyWord(section, InProgressWords)
      && ContainsAnyWord(section, DeferredWords)
    ensures r == "OPEN" || r == "DECIDED" || r == "DEFERRED"
  {
    if ContainsAnyWord(section, DecidedWords) then "DECIDED"
    else if ContainsAnyWord(section, InProgressWords) then "OPEN"
    else if ContainsAnyWord(section, DeferredWords) then "DEFERRED"
    else "OPEN"
  }

  /** Every `[[Name]]` of the section joined with `, `, or `Unassigned` without one. */
  function OwnerOf(section: string): string {
    var names := OwnerNames(section);
    if names == [] then "Unassigned" else Join(names, ", ")
  }

  /** One pass of the parsing loop over section `i` of the split: nothing for a preamble or an
      empty title, otherwise the decision the section describes. */
  function SectionDecision(i: nat, raw: string, hash: string -> string, today: string): Option<Decision> {
    match SectionText(i, raw)
    case None => None
    case Some(section) =>
      var title := TitleOf(section);
      if title == [] then None
      else
        var owner := OwnerOf(section);
        var status := match FieldOf(section, StatusMarker) case Some(v) => v case None => InferredStatus(section);
        var description := DescriptionOf(section);
        Some(NewDecision(title, owner, description, section, hash(Fingerprint(title, owner, description)),
                         status, FieldOf(section, DateMarker), Markdown, today))
  }

  /** The body of the parsing loop as a function of the section's index and text. */
  function SectionParser(hash: string -> string, today: string): (nat, string) -> Option<Decision> {
    (i: nat, raw: string) => SectionDecision(i, raw, hash, today)
  }

  /** The decisions of the sections of the markdown, section `k` read as the `k`-th of the split. */
  function Parse(markdown: string, hash: string -> string, today: string): seq<Decision> {
    Somes(SectionParser(hash, today), Split(markdown, HeadingSep))
  }

  /** `parse_markdown_decisions`: the loop over the sections of `re.split(r'\n## ', md)`. */
  method ParseMarkdownDecisions(markdown: string, hash: string -> string, today: string)
    returns (decisions: seq<Decision>)
    ensures decisions == Parse(markdown, hash, today)
  {
    var sections := Split(markdown, HeadingSep);
    decisions := CollectSomes(SectionParser(hash, today), sections);
  }

  // ---------------------------------------------------------------- what the parser promises

  /** What one parsed section holds: its text with `## ` in front, the title of its first line
      (never empty), every owner or `Unassigned`, the explicit status or else the inferred one,
      the `**Date**:` value when there is a non-empty one and otherwise today, the cleaned
      description, and the hash of its own fingerprint. */
  lemma SectionDecisionFields(i: nat, raw: string, hash: string -> string, today: string)
    requires SectionDecision(i, raw, hash, today).Some?
    ensures var d := SectionDecision(i, raw, hash, today).value;
      var section := d.originalText;
      && StartsWith(section, "## ") && (section == raw || section == "## " + raw)
      && d.title == TitleOf(section) && d.title != [] && Trimmed(d.title) && '\n' !in d.title
      && (OwnerNames(section) == [] ==> d.owner == "Unassigned")
      && (OwnerNames(section) != [] ==> d.owner == Join(OwnerNames(section), ", "))
      && (FieldOf(section, StatusMarker).Some? ==> d.status == FieldOf(section, StatusMarker).value)
      && (FieldOf(section, StatusMarker).None? ==> d.status == InferredStatus(section))
      && (FieldOf(section, DateMarker).Some? && FieldOf(section, DateMarker).value != [] ==>
            d.dateCreated == FieldOf(section, DateMarker).value)
      && (FieldOf(section, DateMarker) in {None, Some("")} ==> d.dateCreated == today)
      && d.description == DescriptionOf(section) && Trimmed(d.description)
      && d.dateUpdated == None && d.source == Markdown && Fingerprinted(hash, d)
  {
  }

  /** The text before the first heading never yields a decision. */
  lemma PreambleSkipped(raw: string, hash: string -> string, today: string)
    requires !StartsWith(raw, "## ")
    ensures SectionDecision(0, raw, hash, today) == None
  {
  }

  /** Every parsed decision has a non-empty one-line title and a description without
      surrounding whitespace, comes from the markdown, and carries the hash of its fingerprint. */
  lemma ParsedWellFormed(markdown: string, hash: string -> string, today: string)
    ensures forall d :: d in Parse(markdown, hash, today) ==>
      d.title != [] && Trimmed(d.title) && '\n' !in d.title && Trimmed(d.description)
      && d.source == Markdown && Fingerprinted(hash, d)
  {
    var f, sections := SectionParser(hash, today), Split(markdown, HeadingSep);
    SomesFrom(f, sections);
    forall d: Decision | d in Somes(f, sections)
      ensures d.title != [] && Trimmed(d.title) && '\n' !in d.title && Trimmed(d.description)
      && d.source == Markdown && Fingerprinted(hash, d)
    {
      var k :| 0 <= k < |sections| && f(k, sections[k]) == Some(d);
      SectionDecisionFields(k, sections[k], hash, today);
    }
  }

  /** Markdown without a heading yields no decision at all. */
  lemma NoHeadingNoDecisions(markdown: string, hash: string -> string, today: string)
    requires !Contains(markdown, HeadingSep) && !StartsWith(markdown, "## ")
    ensures Parse(markdown, hash, today) == []
  {
    SplitAbsent(markdown, HeadingSep);
    var sections := [markdown];
    assert sections[..0] == [];
    PreambleSkipped(markdown, hash, today);
    assert Somes(SectionParser(hash, today), sections) == [];
  }

  /** The owner list can be split back into the names as long as no name holds a comma. */
  lemma OwnersRecoverable(section: string)
    requires OwnerNames(section) != []
    requires forall k :: 0 <= k < |OwnerNames(section)| ==> ',' !in OwnerNames(section)[k]
    ensures Split(OwnerOf(section), ", ") == OwnerNames(section)
  {
    SplitJoin(OwnerNames(section), ", ");
  }

  // ================================================================ rendering one decision

  const GreenWords: seq<string> := ["APPROVE", "DECIDED", "ACCEPTED"]
  const YellowWords: seq<string> := ["DEFER", "POSTPONE"]
  const BlueWords: seq<string> := ["OPEN", "IN PROGRESS"]

  /** One of `ws` occurs in `s`. */
  predicate ContainsAny(s: string, ws: seq<string>) {
    exists w :: w in ws && Contains(s, w)
  }

  /** The colour `create_decision_macro_xml` picks for a status: the groups of words are looked
      for in the upper-cased status, Green first, then Yellow, then Blue, and the first group
      with a word in it decides; a status that holds none of them, the empty one included, is
      Grey. The logger computes the status macro holding this colour but never puts it on the
      page. */
  function StatusColour(status: string): (r: string)
    ensures r == "Green" <==> ContainsAny(Upper(status), GreenWords)
    ensures r == "Yellow" <==> !ContainsAny(Upper(status), GreenWords) && ContainsAny(Upper(status), YellowWords)
    ensures r == "Blue" <==>
      !ContainsAny(Upper(status), GreenWords) && !ContainsAny(Upper(status), YellowWords)
      && ContainsAny(Upper(status), BlueWords)
    ensures r == "Green" || r == "Yellow" || r == "Blue" || r == "Grey"
  {
    var u := Upper(status);
    GroupOfThree(u, "APPROVE", "DECIDED", "ACCEPTED");
    GroupOfTwo(u, "DEFER", "POSTPONE");
    GroupOfTwo(u, "OPEN", "IN PROGRESS");
    if status == [] then "Grey"
    else
      var v := Strip(Upper(status));
      if Contains(v, "APPROVE") || Contains(v, "DECIDED") || Contains(v, "ACCEPTED") then "Green"
      else if Contains(v, "DEFER") || Contains(v, "POSTPONE") then "Yellow"
      else if Contains(v, "OPEN") || Contains(v, "IN PROGRESS") then "Blue"
      else "Grey"
  }

  /** A word that begins and ends with a non-whitespace character. */
  predicate Solid(w: string) {
    w != [] && !IsSpace(w[0]) && !IsSpace(w[|w| - 1])
  }

  /** A group of three words is found in the text exactly when one of them is found in the
      stripped text; none is found in the empty text. */
  lemma GroupOfThree(u: string, a: string, b: string, c: string)
    requires Solid(a) && Solid(b) && Solid(c)
    ensures ContainsAny(u, [a, b, c]) <==> Contains(Strip(u), a) || Contains(Strip(u), b) || Contains(Strip(u), c)
    ensures u == [] ==> !ContainsAny(u, [a, b, c])
  {
    ContainsStripped(u, a);
    ContainsStripped(u, b);
    ContainsStripped(u, c);
    assert a in [a, b, c] && b in [a, b, c] && c in [a, b, c];
  }

  /** The same for a group of two words. */
  lemma GroupOfTwo(u: string, a: string, b: string)
    requires Solid(a) && Solid(b)
    ensures ContainsAny(u, [a, b]) <==> Contains(Strip(u), a) || Contains(Strip(u), b)
    ensures u == [] ==> !ContainsAny(u, [a, b])
  {
    ContainsStripped(u, a);
    ContainsStripped(u, b);
    assert a in [a, b] && b in [a, b];
  }

  /** `", ".join(name.strip() for name in owner.split(","))`: a single name is only stripped
      (`ParticipantsOfOwners` says what becomes of a list of names). */
  function Participants(owner: string): (r: string)
    ensures ',' !in owner ==> r == Strip(owner)
  {
    assert ',' !in owner ==> Split(owner, ",") == [owner] by {
      if ',' !in owner {
        AbsentChar(owner, ',');
        SplitAbsent(owner, ",");
      }
    }
    MapSeqAt(Strip, [owner]);
    Join(MapSeq(Strip, Split(owner, ",")), ", ")
  }

  /** The description paragraph: the rich text, then the creation date and the update date
      when they are set. */
  function DescriptionHtml(d: Decision): string {
    RichText(d.description) + DateLines(d)
  }

  /** `create_decision_macro_xml` of the logger: a heading with the escaped title, the
      participants line, the description paragraph and a rule. The heading runs up to the next
      `<`, and unescaping it gives the title back. */
  function DecisionHtml(d: Decision): (r: string)
    ensures StartsWith(r, "<h2>")
    ensures UnescapeHtml(r[4..NextIndex(r, '<', 4)]) == d.title
  {
    var e := EscapeHtml(d.title);
    var rest := "</h2>\n<p><strong>Participants:</strong> " + Participants(d.owner)
      + "</p>\n<p>" + DescriptionHtml(d) + "</p>\n<hr/>";
    HeadingReadBack(e, rest);
    "<h2>" + e + rest
  }

  /** A heading opened by `<h2>` whose text holds no `<` reads back up to the next `<`. */
  lemma HeadingReadBack(e: string, rest: string)
    requires '<' !in e && rest != [] && rest[0] == '<'
    ensures StartsWith("<h2>" + e + rest, "<h2>")
    ensures ("<h2>" + e + rest)[4..NextIndex("<h2>" + e + rest, '<', 4)] == e
  {
    NextIndexAfter("<h2>", e, rest, '<');
    StartsWithHead("<h2>", e);
    StartsWithExtended("<h2>" + e, "<h2>", rest);
  }

  /** The logger never shows the status: two decisions that differ only in it render alike. */
  lemma DecisionHtmlIgnoresStatus(d: Decision, status: string)
    ensures DecisionHtml(d.(status := status)) == DecisionHtml(d)
  {
  }

  // ---------------------------------------------------------------- participants

  /** Each of `xs` with `p` in front. */
  function Prefixed(p: string, xs: seq<string>): (r: seq<string>)
    ensures |r| == |xs| && forall k :: 0 <= k < |xs| ==> r[k] == p + xs[k]
  {
    if xs == [] then [] else [p + xs[0]] + Prefixed(p, xs[1..])
  }

  lemma JoinHead(a: string, b: string, zs: seq<string>, sep: string)
    ensures Join([a + b] + zs, sep) == a + Join([b] + zs, sep)
  {
    if zs != [] {
      assert ([a + b] + zs)[1..] == zs && ([b] + zs)[1..] == zs;
    }
  }

  /** Names joined with `, ` are the same text as the names joined with `,`, every name but
      the first with a space in front. */
  lemma {:induction false} JoinCommaSpace(x: string, ys: seq<string>)
    ensures Join([x] + ys, ", ") == Join([x] + Prefixed(" ", ys), ",")
    decreases |ys|
  {
    if ys != [] {
      var rest := Prefixed(" ", ys[1..]);
      JoinCommaSpace(ys[0], ys[1..]);
      assert Prefixed(" ", ys) == [" " + ys[0]] + rest;
      JoinHead(" ", ys[0], rest, ",");
      assert ([x] + ys)[1..] == [ys[0]] + ys[1..];
      assert ([x] + Prefixed(" ", ys))[1..] == [" " + ys[0]] + rest;
    }
  }

  lemma StripSpaced(n: string)
    requires Trimmed(n)
    ensures Strip(" " + n) == n
  {
    var s := " " + n;
    if n != [] {
      assert SkipSpace(s, 0) == 1 by {
        assert IsSpace(s[0]) && !IsSpace(s[1]);
      }
      assert TrimEnd(s, 1, |s|) == |s|;
      assert s[1..] == n;
    }
  }

  lemma StripEach(pieces: seq<string>, names: seq<string>)
    requires |pieces| == |names|
    requires forall k :: 0 <= k < |pieces| ==> Strip(pieces[k]) == names[k]
    ensures MapSeq(Strip, pieces) == names
  {
    MapSeqAt(Strip, pieces);
  }

  /** The pieces `owner.split(",")` cuts an owner list into: the first name, then every other
      name with the space that followed its comma. */
  function CommaPieces(names: seq<string>): seq<string>
    requires names != []
  {
    [names[0]] + Prefixed(" ", names[1..])
  }

  lemma CommaPiecesJoin(names: seq<string>)
    requires names != []
    ensures Join(names, ", ") == Join(CommaPieces(names), ",")
  {
    assert names == [names[0]] + names[1..];
    JoinCommaSpace(names[0], names[1..]);
  }

  lemma CommaPiecesStrip(names: seq<string>)
    requires names != []
    requires forall k :: 0 <= k < |names| ==> ',' !in names[k] && Trimmed(names[k])
    ensures |CommaPieces(names)| == |names|
    ensures forall k :: 0 <= k < |names| ==> ',' !in CommaPieces(names)[k] && Strip(CommaPieces(names)[k]) == names[k]
  {
    var pieces := CommaPieces(names);
    forall k | 0 <= k < |pieces|
      ensures ',' !in pieces[k] && Strip(pieces[k]) == names[k]
    {
      if k == 0 {
        StripTrimmed(names[0]);
      } else {
        assert pieces[k] == " " + names[k];
        StripSpaced(names[k]);
      }
    }
  }

  /** An owner list written as names joined with `, ` comes out of the participants line as it
      went in, as long as no name holds a comma or surrounding whitespace. */
  lemma ParticipantsOfOwners(names: seq<string>)
    requires names != []
    requires forall k :: 0 <= k < |names| ==> ',' !in names[k] && Trimmed(names[k])
    ensures Participants(Join(names, ", ")) == Join(names, ", ")
  {
    var pieces := CommaPieces(names);
    CommaPiecesJoin(names);
    CommaPiecesStrip(names);
    SplitJoin(pieces, ",");
    StripEach(pieces, names);
  }

  // ================================================================ `datetime.strptime(s, "%Y-%m-%d")`

  datatype Date = Date(year: nat, month: nat, day: nat)

  predicate IsLeap(year: int) {
    (year % 4 == 0 && year % 100 != 0) || year % 400 == 0
  }

  /** The number of days of a month in the proleptic Gregorian calendar `datetime` uses. */
  function DaysIn(year: int, month: int): int {
    if month == 2 then (if IsLeap(year) then 29 else 28)
    else if month == 4 || month == 6 || month == 9 || month == 11 then 30
    else 31
  }

  function DigitAt(s: string, i: nat): nat
    requires i < |s| && IsDigit(s[i])
  {
    s[i] as int - '0' as int
  }

  /** The `%m` group followed by `-`, at `i`: the alternatives `1[0-2]`, `0[1-9]` and `[1-9]`
      in that order; at most one of them is followed by the dash. Gives the month and the index
      after the dash. */
  function MonthAt(s: string, i: nat): (r: Option<(nat, nat)>)
    ensures r.Some? ==> 1 <= r.value.0 <= 12 && i < r.value.1 <= |s|
  {
    if i + 2 < |s| && s[i] == '1' && '0' <= s[i + 1] <= '2' && s[i + 2] == '-' then Some((10 + DigitAt(s, i + 1), i + 3))
    else if i + 2 < |s| && s[i] == '0' && '1' <= s[i + 1] <= '9' && s[i + 2] == '-' then Some((DigitAt(s, i + 1), i + 3))
    else if i + 1 < |s| && '1' <= s[i] <= '9' && s[i + 1] == '-' then Some((DigitAt(s, i), i + 2))
    else None
  }

  /** The `%d` group at `i`: the first of the alternatives `3[01]`, `[12]\d`, `0[1-9]`, `[1-9]`
      and ` [1-9]` that matches there. Gives the day and the index after it. */
  function DayAt(s: string, i: nat): (r: Option<(nat, nat)>)
    ensures r.Some? ==> 1 <= r.value.0 <= 31 && i < r.value.1 <= |s|
  {
    if i + 1 < |s| && s[i] == '3' && (s[i + 1] == '0' || s[i + 1] == '1') then Some((30 + DigitAt(s, i + 1), i + 2))
    else if i + 1 < |s| && (s[i] == '1' || s[i] == '2') && IsDigit(s[i + 1]) then Some((10 * DigitAt(s, i) + DigitAt(s, i + 1), i + 2))
    else if i + 1 < |s| && s[i] == '0' && '1' <= s[i + 1] <= '9' then Some((DigitAt(s, i + 1), i + 2))
    else if i < |s| && '1' <= s[i] <= '9' then Some((DigitAt(s, i), i + 1))
    else if i + 1 < |s| && s[i] == ' ' && '1' <= s[i + 1] <= '9' then Some((DigitAt(s, i + 1), i + 2))
    else None
  }

  /** `datetime.strptime(s, "%Y-%m-%d")`, `None` where it raises `ValueError`: four digits, a
      dash, the month and a dash, the day, nothing left over, and a real calendar day of a year
      from 1 on. */
  function ParseDate(s: string): (r: Option<Date>)
    ensures r.Some? ==> 1 <= r.value.year <= 9999 && 1 <= r.value.month <= 12
                        && 1 <= r.value.day <= DaysIn(r.value.year, r.value.month)
  {
    if |s| < 5 || !AllDigits(s[..4]) || s[4] != '-' then None
    else match MonthAt(s, 5)
      case None => None
      case Some((month, j)) =>
        match DayAt(s, j)
        case None => None
        case Some((day, e)) =>
          var year := DigitsValue(s[..4]);
          FourDigitsBound(s[..4]);
          if e != |s| || year == 0 || day > DaysIn(year, month) then None
          else Some(Date(year, month, day))
  }

  /** The value of four digits, place by place. */
  lemma FourDigitsValue(s: string)
    requires |s| == 4 && AllDigits(s)
    ensures DigitsValue(s) == 1000 * DigitAt(s, 0) + 100 * DigitAt(s, 1) + 10 * DigitAt(s, 2) + DigitAt(s, 3)
  {
    assert s[..3][..2] == s[..2];
    assert s[..2][..1] == s[..1];
    assert s[..1][..0] == [];
    assert DigitsValue(s[..1]) == DigitAt(s, 0);
    assert DigitsValue(s[..2]) == 10 * DigitAt(s, 0) + DigitAt(s, 1);
    assert DigitsValue(s[..3]) == 100 * DigitAt(s, 0) + 10 * DigitAt(s, 1) + DigitAt(s, 2);
  }

  lemma FourDigitsBound(s: string)
    requires |s| == 4 && AllDigits(s)
    ensures DigitsValue(s) <= 9999
  {
    FourDigitsValue(s);
  }

  /** `strftime("%Y-%m-%d")` for a year of four digits. */
  function FormatDate(t: Date): string
    requires 1000 <= t.year <= 9999 && 1 <= t.month <= 12 && 1 <= t.day <= 31
  {
    [DigitChar(t.year / 1000), DigitChar(t.year / 100 % 10), DigitChar(t.year / 10 % 10), DigitChar(t.year % 10), '-',
     DigitChar(t.month / 10), DigitChar(t.month % 10), '-', DigitChar(t.day / 10), DigitChar(t.day % 10)]
  }

  lemma FormattedYear(t: Date)
    requires 1000 <= t.year <= 9999 && 1 <= t.month <= 12 && 1 <= t.day <= 31
    ensures var s := FormatDate(t); AllDigits(s[..4]) && DigitsValue(s[..4]) == t.year
  {
    var s, y := FormatDate(t), t.year;
    FourDigitsValue(s[..4]);
    assert DigitAt(s[..4], 0) == y / 1000 && DigitAt(s[..4], 1) == y / 100 % 10;
    assert DigitAt(s[..4], 2) == y / 10 % 10 && DigitAt(s[..4], 3) == y % 10;
    DecimalDigits(y);
  }

  /** A number below ten thousand is the sum of its four decimal digits times their weights. */
  lemma DecimalDigits(y: nat)
    requires y <= 9999
    ensures 1000 * (y / 1000) + 100 * (y / 100 % 10) + 10 * (y / 10 % 10) + y % 10 == y
  {
    var q := y / 10;
    assert y == 10 * q + y % 10;
    assert q / 10 == y / 100 && q / 100 == y / 1000;
    assert q == 10 * (q / 10) + q % 10;
    assert q / 10 == 10 * (q / 100) + q / 10 % 10;
  }

  lemma FormattedMonth(t: Date)
    requires 1000 <= t.year <= 9999 && 1 <= t.month <= 12 && 1 <= t.day <= 31
    ensures MonthAt(FormatDate(t), 5) == Some((t.month, 8))
  {
  }

  lemma FormattedDay(t: Date)
    requires 1000 <= t.year <= 9999 && 1 <= t.month <= 12 && 1 <= t.day <= 31
    ensures DayAt(FormatDate(t), 8) == Some((t.day, 10))
  {
  }

  /** A date written by `strftime` reads back as the same date. */
  lemma ParseFormatDate(t: Date)
    requires 1000 <= t.year <= 9999 && 1 <= t.month <= 12 && 1 <= t.day <= DaysIn(t.year, t.month)
    ensures ParseDate(FormatDate(t)) == Some(t)
  {
    FormattedYear(t);
    FormattedMonth(t);
    FormattedDay(t);
  }

  /** The sort key of a `datetime` at midnight: it orders dates as the calendar does. */
  function Ordinal(t: Date): int {
    t.year * 10000 + t.month * 100 + t.day
  }

  /** Keys compare as dates do: by year, then month, then day. */
  lemma OrdinalOrder(a: Date, b: Date)
    requires 1 <= a.month <= 12 && 1 <= a.day <= 31 && 1 <= b.month <= 12 && 1 <= b.day <= 31
    ensures Ordinal(a) < Ordinal(b) <==>
      a.year < b.year || (a.year == b.year && (a.month < b.month || (a.month == b.month && a.day < b.day)))
  {
  }

  /** `_parse_date`: the creation date parsed, with a missing or unparseable one read as
      1900-01-01. */
  function DateKey(d: Decision): (r: int)
    ensures ParseDate(d.dateCreated).Some? ==> r == Ordinal(ParseDate(d.dateCreated).value)
    ensures ParseDate(d.dateCreated).None? ==> r == Ordinal(Date(1900, 1, 1))
  {
    var text := if d.dateCreated == [] then "1900-01-01" else d.dateCreated;
    EpochParses();
    match ParseDate(text)
    case Some(t) => Ordinal(t)
    case None => Ordinal(Date(1900, 1, 1))
  }

  /** The fallback text is itself a date. */
  lemma EpochParses()
    ensures ParseDate("1900-01-01") == Some(Date(1900, 1, 1))
  {
    ParseFormatDate(Date(1900, 1, 1));
    assert FormatDate(Date(1900, 1, 1)) == "1900-01-01";
  }

  /** A creation date written as `strftime` writes it sorts by that date. */
  lemma DateKeyOfFormatted(d: Decision, t: Date)
    requires 1000 <= t.year <= 9999 && 1 <= t.month <= 12 && 1 <= t.day <= DaysIn(t.year, t.month)
    requires d.dateCreated == FormatDate(t)
    ensures DateKey(d) == Ordinal(t)
  {
    ParseFormatDate(t);
  }

  // ================================================================ page assembly

  /** The summary paragraph: the sizes of the three buckets. */
  function SummaryHtml(r: SyncResult): string {
    "<p><strong>Sync Summary:</strong> " + NatToString(|r.addedTitles|) + " added, "
    + NatToString(|r.updatedTitles|) + " updated, " + NatToString(|r.unchangedTitles|) + " unchanged</p>"
  }

  function Header(title: string, now: string, summary: Option<SyncResult>): string {
    PageHeader(title, now, if summary.Some? then SummaryHtml(summary.value) else "")
  }

  /** `create_decisions_page_content`: the header with the page's own title (or `Decision Log`
      when it cannot be fetched), then the decisions newest first, one after the other. */
  function PageContent(fetchedTitle: Option<string>, now: string, decisions: seq<Decision>,
                       summary: Option<SyncResult>): (r: string)
    ensures StartsWith(r, "<h1>" + (if fetchedTitle.Some? then fetchedTitle.value else "Decision Log") + "</h1>\n")
  {
    var title := if fetchedTitle.Some? then fetchedTitle.value else "Decision Log";
    var sections := Join(MapSeq(DecisionHtml, SortDesc(decisions, DateKey)), "\n");
    StartsWithExtended(Header(title, now, summary), "<h1>" + title + "</h1>\n", sections);
    Header(title, now, summary) + sections
  }

  /** The page lists every decision once, newest first, and decisions with the same date in
      the order they were given. */
  lemma PageOrder(decisions: seq<Decision>)
    ensures var sorted := SortDesc(decisions, DateKey);
      && Descending(sorted, DateKey)
      && multiset(sorted) == multiset(decisions)
      && forall v :: WithKey(sorted, DateKey, v) == WithKey(decisions, DateKey, v)
  {
    SortDescSorted(decisions, DateKey);
    forall v
      ensures WithKey(SortDesc(decisions, DateKey), DateKey, v) == WithKey(decisions, DateKey, v)
    {
      SortDescStable(decisions, DateKey, v);
    }
  }

  /** The page shows one section per decision. */
  lemma PageSections(decisions: seq<Decision>)
    ensures |MapSeq(DecisionHtml, SortDesc(decisions, DateKey))| == |decisions|
  {
    SortDescSorted(decisions, DateKey);
    assert |multiset(SortDesc(decisions, DateKey))| == |multiset(decisions)|;
    MapSeqAt(DecisionHtml, SortDesc(decisions, DateKey));
  }
}
