/** The enhanced sync script `confluence_decision_sync_enhanced.py`: its markdown parser (first
    owner only, status `OPEN` unless stated), its decision-macro renderer with the status line,
    and its page assembly, which keeps the decisions in the order it is given them. Extraction
    and reconciliation are the ones in `Decisions` and `Sync`. */
module DecisionSyncEnhanced {
  import opened Text
  import opened Markup
  import opened Decisions
  import opened Sync

  // ================================================================ parsing

  /** The first `[[Name]]` of the section, or `Unassigned` without one. */
  function FirstOwner(section: string): string {
    var names := OwnerNames(section);
    if names == [] then "Unassigned" else names[0]
  }

  /** One pass of the parsing loop over section `i` of the split: nothing for a preamble or an
      empty title, otherwise the decision the section describes. */
  function SectionDecision(i: nat, raw: string, hash: string -> string, today: string): Option<Decision> {
    match SectionText(i, raw)
    case None => None
    case Some(section) =>
      var title := TitleOf(section);
      if title == [] then None
      else
        var owner := FirstOwner(section);
        var status := match FieldOf(section, StatusMarker) case Some(v) => v case None => "OPEN";
        var description := DescriptionOf(section);
        Some(NewDecision(title, owner, description, section, hash(Fingerprint(title, owner, description)),
                         status, FieldOf(section, DateMarker), Markdown, today))
  }

  /** The body of the parsing loop as a function of the section's index and text. */
  function SectionParser(hash: string -> string, today: string): (nat, string) -> Option<Decision> {
    (i: nat, raw: string) => SectionDecision(i, raw, hash, today)
  }

  /** The decisions of the sections of the markdown, section `k` read as the `k`-th of the split. */
  function Parse(markdown: string, hash: string -> string, today: string): seq<Decision> {
    Somes(SectionParser(hash, today), Split(markdown, HeadingSep))
  }

  /** `parse_markdown_decisions`: the loop over the sections of `re.split(r'\n## ', md)`. */
  method ParseMarkdownDecisions(markdown: string, hash: string -> string, today: string)
    returns (decisions: seq<Decision>)
    ensures decisions == Parse(markdown, hash, today)
  {
    var sections := Split(markdown, HeadingSep);
    decisions := CollectSomes(SectionParser(hash, today), sections);
  }

  // ---------------------------------------------------------------- what the parser promises

  /** What one parsed section holds: its text with `## ` in front, the title of its first line
      (never empty), the first owner or `Unassigned`, the explicit status or else `OPEN`, the
      `**Date**:` value when there is a non-empty one and otherwise today, the cleaned
      description, and the hash of its own fingerprint. */
  lemma SectionDecisionFields(i: nat, raw: string, hash: string -> string, today: string)
    requires SectionDecision(i, raw, hash, today).Some?
    ensures var d := SectionDecision(i, raw, hash, today).value;
      var section := d.originalText;
      && StartsWith(section, "## ") && (section == raw || section == "## " + raw)
      && d.title == TitleOf(section) && d.title != [] && Trimmed(d.title) && '\n' !in d.title
      && (OwnerNames(section) == [] ==> d.owner == "Unassigned")
      && (OwnerNames(section) != [] ==> d.owner == OwnerNames(section)[0])
      && (FieldOf(section, StatusMarker).Some? ==> d.status == FieldOf(section, StatusMarker).value)
      && (FieldOf(section, StatusMarker).None? ==> d.status == "OPEN")
      && (FieldOf(section, DateMarker).Some? && FieldOf(section, DateMarker).value != [] ==>
            d.dateCreated == FieldOf(section, DateMarker).value)
      && (FieldOf(section, DateMarker) in {None, Some("")} ==> d.dateCreated == today)
      && d.description == DescriptionOf(section) && Trimmed(d.description)
      && d.dateUpdated == None && d.source == Markdown && Fingerprinted(hash, d)
  {
  }

  /** The owner is one name: the first of those the logger would join. */
  lemma FirstOfLoggerOwners(section: string)
    requires OwnerNames(section) != []
    ensures FirstOwner(section) == OwnerNames(section)[0]
    ensures StartsWith(Join(OwnerNames(section), ", "), FirstOwner(section))
  {
    var names := OwnerNames(section);
    if |names| > 1 {
      assert Join(names, ", ") == names[0] + ", " + Join(names[1..], ", ");
    }
  }

  /** A parsed decision has a non-empty one-line title, a trimmed status and a description
      without surrounding whitespace, comes from the markdown, and carries the hash of its
      fingerprint. */
  predicate WellFormed(hash: string -> string, d: Decision) {
    d.title != [] && Trimmed(d.title) && '\n' !in d.title && Trimmed(d.description)
    && Trimmed(d.status) && d.source == Markdown && Fingerprinted(hash, d)
  }

  lemma SectionWellFormed(i: nat, raw: string, hash: string -> string, today: string)
    requires SectionDecision(i, raw, hash, today).Some?
    ensures WellFormed(hash, SectionDecision(i, raw, hash, today).value)
  {
    var d := SectionDecision(i, raw, hash, today).value;
    SectionDecisionFields(i, raw, hash, today);
    var status := FieldOf(d.originalText, StatusMarker);
    if status.None? {
      OpenTrimmed();
    }
  }

  lemma OpenTrimmed()
    ensures Trimmed("OPEN")
  {
    assert !IsSpace("OPEN"[0]) && !IsSpace("OPEN"[3]);
  }

  /** Every parsed decision is well formed. */
  lemma ParsedWellFormed(markdown: string, hash: string -> string, today: string)
    ensures forall d :: d in Parse(markdown, hash, today) ==> WellFormed(hash, d)
  {
    var f, sections := SectionParser(hash, today), Split(markdown, HeadingSep);
    SomesFrom(f, sections);
    forall d: Decision | d in Somes(f, sections)
      ensures WellFormed(hash, d)
    {
      var k :| 0 <= k < |sections| && f(k, sections[k]) == Some(d);
      SectionWellFormed(k, sections[k], hash, today);
    }
  }

  // ================================================================ the decision macro

  const StatusLabel := "<br/><br/><strong>Status:</strong> "

  /** The description paragraph: the rich text, a status line unless the status is `OPEN`,
      then the date lines. */
  function Paragraph(d: Decision): string {
    RichText(d.description) + StatusLine(d) + DateLines(d)
  }

  function StatusLine(d: Decision): string {
    if d.status != "OPEN" then StatusLabel + d.status else ""
  }

  /** The opening tag, carrying the hash as the macro id. */
  function MacroOpenTag(id: string): string {
    DecisionOpen + " ac:schema-version=\"1\" " + MacroIdAttr + id + "\">"
  }

  /** What lies between the opening and the closing tag: the escaped title and owner as
      parameters, then the description paragraph in the rich-text body. */
  function MacroInner(d: Decision): string {
    InnerWith(d, Paragraph(d))
  }

  const Indent := "\n    "

  /** The macro's inner markup around a given description paragraph. */
  function InnerWith(d: Decision, paragraph: string): string {
    Indent + ParamOpen("title") + EscapeHtml(d.title) + ParamClose
    + Indent + ParamOpen("owner") + EscapeHtml(d.owner) + ParamClose
    + BodyWith(paragraph)
  }

  /** The rich-text body holding the description paragraph. */
  function BodyWith(paragraph: string): string {
    Indent + BodyOpen + "\n        <p>" + paragraph + "</p>\n    " + BodyClose + "\n"
  }

  /** The rendered macro: the opening tag carrying the hash as macro id, the inner markup and the
      closing tag. A page holding it is read by the extractor's pattern as exactly that macro,
      with the hash as its id and the inner markup as its content, as long as no metadata line
      holds the closing tag (a hex digest holds neither `"` nor `>`). */
  function MacroXml(d: Decision): (r: string)
    ensures '"' !in d.hashId && '>' !in d.hashId && !Contains(MacroInner(d), MacroClose) ==>
      DecisionMacros(r, 0) == [(d.hashId, MacroInner(d))]
  {
    var xml := MacroOpenTag(d.hashId) + MacroInner(d) + MacroClose;
    assert '"' !in d.hashId && '>' !in d.hashId && !Contains(MacroInner(d), MacroClose) ==>
      DecisionMacros(xml, 0) == [(d.hashId, MacroInner(d))] by {
      if '"' !in d.hashId && '>' !in d.hashId && !Contains(MacroInner(d), MacroClose) {
        OpenTagReadBack(d.hashId, MacroInner(d));
        assert DecisionMacros(xml, |xml|) == [];
      }
    }
    xml
  }

  /** `create_decision_macro_xml`: the description is escaped and formatted, the metadata lines
      are appended one by one, and the macro is written around it. */
  method CreateDecisionMacroXml(d: Decision) returns (xml: string)
    ensures xml == MacroXml(d)
  {
    var description := RichText(d.description);
    if d.status != "OPEN" {
      description := description + (StatusLabel + d.status);
    }
    assert description == RichText(d.description) + StatusLine(d);
    ghost var head := description;
    if d.dateCreated != [] {
      description := description + (CreatedLabel + d.dateCreated);
    }
    ghost var dated := description;
    assert dated == head + CreatedLine(d);
    if d.dateUpdated.Some? && d.dateUpdated.value != [] {
      description := description + (UpdatedLabel + d.dateUpdated.value);
    }
    assert description == dated + UpdatedLine(d);
    Associative(head, CreatedLine(d), UpdatedLine(d));
    xml := MacroOpenTag(d.hashId) + InnerWith(d, description) + MacroClose;
  }

  /** The status line appears exactly for a status other than `OPEN`, between the rich text
      and the date lines. */
  lemma StatusLineUnlessOpen(d: Decision)
    ensures d.status == "OPEN" <==> Paragraph(d) == RichText(d.description) + DateLines(d)
  {
    if d.status != "OPEN" {
      assert |Paragraph(d)| > |RichText(d.description) + DateLines(d)|;
    }
  }

  // ================================================================ page assembly

  /** The summary paragraph, with the line breaks the source's triple-quoted string holds. */
  function SummaryHtml(r: SyncResult): string {
    "<p><strong>Sync Summary:</strong> \n" + NatToString(|r.addedTitles|) + " added, "
    + NatToString(|r.updatedTitles|) + " updated, \n" + NatToString(|r.unchangedTitles|) + " unchanged</p>"
  }

  const MacroSep := "\n<br/>\n"

  /** `create_decisions_page_content`: the header with the page's own title (or the page id the
      caller passes as the title when it cannot be fetched), then every macro in input order,
      separated by a line break. */
  function PageContent(fetchedTitle: Option<string>, pageId: string, now: string, decisions: seq<Decision>,
                       summary: Option<SyncResult>): (r: string)
    ensures StartsWith(r, "<h1>" + (if fetchedTitle.Some? then fetchedTitle.value else pageId) + "</h1>\n")
  {
    var title := if fetchedTitle.Some? then fetchedTitle.value else pageId;
    var header := PageHeader(title, now, if summary.Some? then SummaryHtml(summary.value) else "");
    var macros := Join(MapSeq(MacroXml, decisions), MacroSep);
    StartsWithExtended(header, "<h1>" + title + "</h1>\n", macros);
    header + macros
  }

  /** The loop that writes one macro per decision, then joins them under the header. */
  method CreateDecisionsPageContent(fetchedTitle: Option<string>, pageId: string, now: string,
                                    decisions: seq<Decision>, summary: Option<SyncResult>)
    returns (content: string)
    ensures content == PageContent(fetchedTitle, pageId, now, decisions, summary)
  {
    var title := if fetchedTitle.Some? then fetchedTitle.value else pageId;
    var header := PageHeader(title, now, if summary.Some? then SummaryHtml(summary.value) else "");
    var macros: seq<string> := [];
    var i := 0;
    while i < |decisions|
      invariant 0 <= i <= |decisions|
      invariant macros == MapSeq(MacroXml, decisions[..i])
    {
      var xml := CreateDecisionMacroXml(decisions[i]);
      macros := macros + [xml];
      MapSeqSnoc(MacroXml, decisions, i);
      i := i + 1;
    }
    assert decisions[..i] == decisions;
    content := header + Join(macros, MacroSep);
  }

  /** The page holds one macro per decision, the `k`-th for the `k`-th decision. */
  lemma PageMacros(decisions: seq<Decision>)
    ensures var macros := MapSeq(MacroXml, decisions);
      |macros| == |decisions| && forall k :: 0 <= k < |decisions| ==> macros[k] == MacroXml(decisions[k])
  {
    MapSeqAt(MacroXml, decisions);
  }

  // ================================================================ reading a macro back

  const SchemaAttr := " ac:schema-version=\"1\" "

  /** Between the macro name and the id attribute, the attribute does not begin. */
  lemma SchemaNotMacroId(s: string, k0: nat)
    requires At(s, k0, SchemaAttr)
    ensures forall j :: k0 <= j < k0 + |SchemaAttr| ==> !At(s, j, MacroIdAttr)
  {
    forall j | k0 <= j < k0 + |SchemaAttr|
      ensures !At(s, j, MacroIdAttr)
    {
      var off := j - k0;
      if off == 1 {
        AtChar(s, k0, SchemaAttr, 4);
        NotAtByChar(s, j, MacroIdAttr, 3);
      } else if off == 9 {
        AtChar(s, k0, SchemaAttr, 10);
        NotAtByChar(s, j, MacroIdAttr, 1);
      } else {
        SchemaLetters(off);
        AtChar(s, k0, SchemaAttr, off);
        NotAtByChar(s, j, MacroIdAttr, 0);
      }
    }
  }

  /** The schema attribute has an `a` at offsets 1 and 9 only. */
  lemma SchemaLetters(off: nat)
    requires off < |SchemaAttr| && off != 1 && off != 9
    ensures SchemaAttr[off] != 'a'
  {
    var chars := [' ', 'a', 'c', ':', 's', 'c', 'h', 'e', 'm', 'a', '-', 'v', 'e', 'r', 's', 'i', 'o', 'n', '=', '"', '1', '"', ' '];
    assert SchemaAttr == chars;
  }

  /** The extractor's pattern, run over an opening tag, an inner markup without the closing
      tag, and the closing tag, matches the whole text: the id is read back and the inner markup
      is the macro's content (a hex digest holds neither `"` nor `>`). */
  lemma OpenTagReadBack(id: string, inner: string)
    requires '"' !in id && '>' !in id && !Contains(inner, MacroClose)
    ensures var s := MacroOpenTag(id) + inner + MacroClose;
      DecisionMacroAt(s, 0) == Some(MacroMatch(id, inner, |s|))
  {
    var s := MacroOpenTag(id) + inner + MacroClose;
    var k0 := |DecisionOpen|;
    var a := k0 + |SchemaAttr|;
    var b := a + |MacroIdAttr|;
    var q := b + |id|;
    assert s == DecisionOpen + SchemaAttr + MacroIdAttr + id + "\">" + inner + MacroClose;
    assert s[..k0] == DecisionOpen;
    assert s[k0..a] == SchemaAttr;
    assert s[a..b] == MacroIdAttr;
    assert s[b..q] == id;
    assert s[q] == '"' && s[q + 1] == '>';
    assert s[q + 2..|s| - |MacroClose|] == inner;
    assert s[|s| - |MacroClose|..] == MacroClose;
    NoCloseInside(s, q + 2, inner);
    ScanOpenTag(s, q, id);
  }

  /** No closing tag begins inside the inner markup or across its end. */
  lemma NoCloseInside(s: string, p: nat, inner: string)
    requires p + |inner| + |MacroClose| == |s|
    requires s[p..|s| - |MacroClose|] == inner && s[|s| - |MacroClose|..] == MacroClose
    requires !Contains(inner, MacroClose)
    ensures forall j :: p <= j < |s| - |MacroClose| ==> !At(s, j, MacroClose)
  {
    var e := |s| - |MacroClose|;
    FindLeftmost(inner, MacroClose, 0, false);
    forall j | p <= j < e
      ensures !At(s, j, MacroClose)
    {
      if j + |MacroClose| <= e {
        assert !MatchAt(inner, j - p, MacroClose, false);
        AtInSlice(s, MacroClose, p, e, j);
      } else {
        AtChar(s, e, MacroClose, 0);
        CloseLetters(e - j);
        NotAtByChar(s, j, MacroClose, e - j);
      }
    }
  }

  /** Only the first character of the closing tag is `<`. */
  lemma CloseLetters(off: nat)
    requires 0 < off < |MacroClose|
    ensures MacroClose[off] != '<'
  {
    var chars := ['<', '/', 'a', 'c', ':', 's', 't', 'r', 'u', 'c', 't', 'u', 'r', 'e', 'd', '-', 'm', 'a', 'c', 'r', 'o', '>'];
    assert MacroClose == chars;
  }

  /** The scan over a text laid out as the opening tag, an inner markup, and the closing tag. */
  lemma ScanOpenTag(s: string, q: nat, id: string)
    requires '"' !in id && '>' !in id
    requires q == |DecisionOpen| + |SchemaAttr| + |MacroIdAttr| + |id|
    requires q + 2 + |MacroClose| <= |s|
    requires s[..|DecisionOpen|] == DecisionOpen
    requires s[|DecisionOpen|..|DecisionOpen| + |SchemaAttr|] == SchemaAttr
    requires s[|DecisionOpen| + |SchemaAttr|..q - |id|] == MacroIdAttr
    requires s[q - |id|..q] == id
    requires s[q] == '"' && s[q + 1] == '>'
    requires s[|s| - |MacroClose|..] == MacroClose
    requires forall j :: q + 2 <= j < |s| - |MacroClose| ==> !At(s, j, MacroClose)
    ensures DecisionMacroAt(s, 0) == Some(MacroMatch(id, s[q + 2..|s| - |MacroClose|], |s|))
  {
    var a := |DecisionOpen| + |SchemaAttr|;
    var b := a + |MacroIdAttr|;
    ScanToAttr(s, q, id);
    IdRunsToQuote(s, b, q, id);
    LastClose(s, q + 2);
    ScanAtAttr(s, a, q, id);
    MacroIdFromHit(s, a, q + 1, MacroMatch(id, s[q + 2..|s| - |MacroClose|], |s|));
  }

  /** From the id attribute on, the scan reads the id up to the quote and the content up to the
      closing tag. */
  lemma ScanAtAttr(s: string, a: nat, q: nat, id: string)
    requires q == a + |MacroIdAttr| + |id| && q + 2 + |MacroClose| <= |s|
    requires At(s, a, MacroIdAttr) && s[a + |MacroIdAttr|..q] == id
    requires NextIndex(s, '"', a + |MacroIdAttr|) == q && s[q + 1] == '>'
    requires Find(s, MacroClose, q + 2, false) == Some(|s| - |MacroClose|)
    ensures MacroIdAt(s, a) == Some(MacroMatch(id, s[q + 2..|s| - |MacroClose|], |s|))
  {
    NextIndexAt(s, '>', q + 1, q + 1);
    var h, e := q + 1, |s| - |MacroClose|;
    assert h + 1 == q + 2;
    MacroIdHere(s, a, q, h, e, id, s[q + 2..|s| - |MacroClose|], |s|);
  }

  /** The lazy scan reaches the id attribute. */
  lemma ScanToAttr(s: string, q: nat, id: string)
    requires '>' !in id
    requires q == |DecisionOpen| + |SchemaAttr| + |MacroIdAttr| + |id|
    requires q + 2 <= |s|
    requires s[..|DecisionOpen|] == DecisionOpen
    requires s[|DecisionOpen|..|DecisionOpen| + |SchemaAttr|] == SchemaAttr
    requires s[|DecisionOpen| + |SchemaAttr|..q - |id|] == MacroIdAttr
    requires s[q - |id|..q] == id
    requires s[q] == '"' && s[q + 1] == '>'
    ensures DecisionMacroAt(s, 0) == MacroIdFrom(s, |DecisionOpen| + |SchemaAttr|, q + 1)
  {
    var k0 := |DecisionOpen|;
    var a := k0 + |SchemaAttr|;
    var b := a + |MacroIdAttr|;
    assert At(s, 0, DecisionOpen);
    NoCloseInOpenTag(s, k0, a, b, q, id);
    NextIndexAt(s, '>', k0, q + 1);
    SchemaNotMacroId(s, k0);
    MacroIdFromSkip(s, k0, a, q + 1);
  }

  lemma IdRunsToQuote(s: string, b: nat, q: nat, id: string)
    requires '"' !in id && b <= q < |s| && s[b..q] == id && s[q] == '"'
    ensures NextIndex(s, '"', b) == q
  {
    forall j | b <= j < q
      ensures s[j] != '"'
    {
      assert s[j] == s[b..q][j - b];
    }
    NextIndexAt(s, '"', b, q);
  }

  /** The closing tag that ends the text is the first one from `from` on. */
  lemma LastClose(s: string, from: nat)
    requires from + |MacroClose| <= |s| && s[|s| - |MacroClose|..] == MacroClose
    requires forall j :: from <= j < |s| - |MacroClose| ==> !At(s, j, MacroClose)
    ensures Find(s, MacroClose, from, false) == Some(|s| - |MacroClose|)
  {
    var e := |s| - |MacroClose|;
    assert MatchAt(s, e, MacroClose, false);
    forall j | from <= j < e
      ensures !MatchAt(s, j, MacroClose, false)
    {
      assert !At(s, j, MacroClose);
    }
    FindAt(s, MacroClose, from, e, false);
  }

  lemma NoCloseInOpenTag(s: string, k0: nat, a: nat, b: nat, q: nat, id: string)
    requires k0 <= a <= b <= q < |s| && '>' !in id
    requires s[k0..a] == SchemaAttr && s[a..b] == MacroIdAttr && s[b..q] == id && s[q] == '"'
    ensures forall j :: k0 <= j <= q ==> s[j] != '>'
  {
    forall j | k0 <= j <= q
      ensures s[j] != '>'
    {
      if j < a {
        assert s[j] == s[k0..a][j - k0];
      } else if j < b {
        assert s[j] == s[a..b][j - a];
      } else if j < q {
        assert s[j] == s[b..q][j - b];
      }
    }
  }

  /** The title and the owner parameters of a rendered macro read back as the escaped title and
      owner. */
  lemma ParamsReadBack(d: Decision)
    ensures ParamValue(MacroInner(d), "title") == Some(EscapeHtml(d.title))
    ensures ParamValue(MacroInner(d), "owner") == Some(EscapeHtml(d.owner))
  {
    TwoParams(EscapeHtml(d.title), EscapeHtml(d.owner), BodyWith(Paragraph(d)));
  }

  lemma TwoParams(t: string, o: string, post: string)
    requires '<' !in t && '<' !in o
    ensures var inner := Indent + ParamOpen("title") + t + ParamClose + Indent + ParamOpen("owner") + o + ParamClose + post;
      ParamValue(inner, "title") == Some(t) && ParamValue(inner, "owner") == Some(o)
  {
    var rest := Indent + ParamOpen("owner") + o + ParamClose + post;
    assert Indent + ParamOpen("title") + t + ParamClose + rest
        == Indent + ParamOpen("title") + t + ParamClose + Indent + ParamOpen("owner") + o + ParamClose + post;
    ParamValueRoundTrip(Indent, "title", t, rest);
    SecondParamValue("title", t, Indent, "owner", o, post);
  }

  /** Extracting a page that holds one rendered macro gives one decision, with the hash as the
      macro id and the escaped title and owner: a title or owner holding a character that
      escaping changes comes back different from the markdown one, so the next sync no longer
      matches the two by title. */
  lemma ExtractRendered(d: Decision, hash: string -> string, today: string)
    requires '"' !in d.hashId && '>' !in d.hashId && !Contains(MacroInner(d), MacroClose)
    ensures var e := ExtractDecision(d.hashId, MacroInner(d), hash, today);
      DecisionMacros(MacroXml(d), 0) == [(d.hashId, MacroInner(d))]
      && e.title == EscapeHtml(d.title) && e.owner == EscapeHtml(d.owner)
  {
    ParamsReadBack(d);
  }

  /** Escaping changes a text that holds `&`: such a title is read back as another title. */
  lemma {:induction false} EscapeChangesAmpersand(s: string)
    requires '&' in s
    ensures EscapeHtml(s) != s
  {
    EscapeEachLonger(s);
  }

  lemma {:induction false} EscapeEachLonger(s: string)
    ensures |EscapeEach(s)| >= |s|
    ensures '&' in s ==> |EscapeEach(s)| > |s|
  {
    if s != [] {
      EscapeEachLonger(s[1..]);
      assert s == [s[0]] + s[1..];
    }
  }
}
