/** The decision record both sync scripts share, the content fingerprint, the pieces of the
    markdown parser the two copies have in common, HTML escaping and rich-text formatting, and
    the extractor that reads decision macros back from a page body. */
module Decisions {
  import opened Text
  import opened Markup

  // ================================================================ the record

  datatype Source = Markdown | Confluence

  /** The `Decision` dataclass once `__post_init__` has run: the creation date is always set. */
  datatype Decision = Decision(
    title: string,
    owner: string,
    description: string,
    originalText: string,
    hashId: string,
    status: string,
    dateCreated: string,
    dateUpdated: Option<string>,
    source: Source)

  /** `Decision(...)` with `date_updated` left at `None`; `__post_init__` replaces a missing or
      empty creation date with `today`. */
  function NewDecision(title: string, owner: string, description: string, originalText: string,
                       hashId: string, status: string, dateCreated: Option<string>, source: Source,
                       today: string): (d: Decision)
    ensures d.title == title && d.owner == owner && d.description == description
    ensures d.originalText == originalText && d.hashId == hashId && d.status == status
    ensures d.source == source && d.dateUpdated == None
    ensures dateCreated.Some? && dateCreated.value != [] ==> d.dateCreated == dateCreated.value
    ensures dateCreated.None? || dateCreated.value == [] ==> d.dateCreated == today
    ensures today != [] ==> d.dateCreated != []
  {
    var created := if dateCreated.Some? && dateCreated.value != [] then dateCreated.value else today;
    Decision(title, owner, description, originalText, hashId, status, created, None, source)
  }

  // ================================================================ fingerprint

  /** The string `title|owner|description` that is hashed into `hash_id`: when the title holds
      no `|`, the first `|` ends it, and the title is read back in front of it. */
  function Fingerprint(title: string, owner: string, description: string): (r: string)
    ensures |r| == |title| + |owner| + |description| + 2
    ensures '|' !in title ==> NextIndex(r, '|', 0) == |title| && r[..|title|] == title
  {
    var rest := owner + "|" + description;
    assert '|' !in title ==> NextIndex(title + "|" + rest, '|', 0) == |title| by {
      if '|' !in title {
        FirstBar(title, rest);
      }
    }
    title + "|" + rest
  }

  /** `hash_id` is the hash of the fingerprint and of nothing else. */
  predicate Fingerprinted(hash: string -> string, d: Decision) {
    d.hashId == hash(Fingerprint(d.title, d.owner, d.description))
  }

  /** Two fingerprinted decisions with the same title, owner and description have the same
      `hash_id`, whatever their status, dates, source or original text. */
  lemma SameContentSameHash(hash: string -> string, d1: Decision, d2: Decision)
    requires Fingerprinted(hash, d1) && Fingerprinted(hash, d2)
    requires d1.title == d2.title && d1.owner == d2.owner && d1.description == d2.description
    ensures d1.hashId == d2.hashId
  {
  }

  /** The first `|` of `a + "|" + x` is the one after `a` when `a` holds none. */
  lemma FirstBar(a: string, x: string)
    requires '|' !in a
    ensures NextIndex(a + "|" + x, '|', 0) == |a|
  {
    var s := a + "|" + x;
    assert s[|a|] == '|';
    assert forall k :: 0 <= k < |a| ==> s[k] == a[k];
  }

  /** Cutting at the first `|`: when neither `a` nor `b` holds one, `a + "|" + x == b + "|" + y`
      forces `a == b` and `x == y`. */
  lemma CutAtBar(a: string, b: string, x: string, y: string)
    requires '|' !in a && '|' !in b && a + "|" + x == b + "|" + y
    ensures a == b && x == y
  {
    FirstBar(a, x);
    FirstBar(b, y);
    var s := a + "|" + x;
    assert s[..|a|] == a && (b + "|" + y)[..|b|] == b;
    assert s[|a| + 1..] == x && (b + "|" + y)[|b| + 1..] == y;
  }

  /** The fingerprint tells triples apart as long as titles and owners hold no `|`; with a `|`
      in them it does not (`FingerprintCollision`). */
  lemma FingerprintInjective(t1: string, o1: string, d1: string, t2: string, o2: string, d2: string)
    requires '|' !in t1 && '|' !in o1 && '|' !in t2 && '|' !in o2
    requires Fingerprint(t1, o1, d1) == Fingerprint(t2, o2, d2)
    ensures t1 == t2 && o1 == o2 && d1 == d2
  {
    assert Fingerprint(t1, o1, d1) == t1 + "|" + (o1 + "|" + d1);
    assert Fingerprint(t2, o2, d2) == t2 + "|" + (o2 + "|" + d2);
    CutAtBar(t1, t2, o1 + "|" + d1, o2 + "|" + d2);
    CutAtBar(o1, o2, d1, d2);
  }

  /** A `|` inside the title can stand for the separator: different triples, one fingerprint. */
  lemma FingerprintCollision(a: string, b: string, c: string)
    ensures Fingerprint(a + "|" + b, c, "") == Fingerprint(a, b + "|" + c, "")
  {
  }

  // ================================================================ markdown sections

  const HeadingSep := "\n## "
  const StatusMarker := "**Status**:"
  const DateMarker := "**Date**:"

  /** `s.startswith(p)`. */
  predicate StartsWith(s: string, p: string) {
    At(s, 0, p)
  }

  /** A text starts with its own first part. */
  lemma StartsWithHead(p: string, b: string)
    ensures StartsWith(p + b, p)
  {
    assert (p + b)[0..|p|] == p;
  }

  /** Appending to a text keeps what it starts with. */
  lemma StartsWithExtended(s: string, p: string, b: string)
    requires StartsWith(s, p)
    ensures StartsWith(s + b, p)
  {
    assert (s + b)[0..|p|] == s[0..|p|];
  }

  /** Section `i` of `re.split(r'\n## ', md)` as the parsing loop treats it: the first section
      is skipped unless it already starts with `## `; any other gets `## ` put back in front
      when it does not start with it. */
  function SectionText(i: nat, raw: string): (r: Option<string>)
    ensures r.Some? ==> StartsWith(r.value, "## ")
    ensures i == 0 && !StartsWith(raw, "## ") <==> r.None?
  {
    if StartsWith(raw, "## ") then Some(raw)
    else if i == 0 then None
    else
      assert ("## " + raw)[..3] == "## ";
      Some("## " + raw)
  }

  /** `re.sub(r'^##\s*', '', lines[0]).strip()` for the first line of a section. */
  function TitleOf(section: string): (t: string)
    ensures Trimmed(t) && '\n' !in t
  {
    var lines := Split(section, "\n");
    var line := lines[0];
    assert '\n' !in line by {
      if '\n' in line {
        var k :| 0 <= k < |line| && line[k] == '\n';
        assert MatchAt(line, k, "\n", false);
        FindLeftmost(line, "\n", 0, false);
      }
    }
    var rest := if StartsWith(line, "##") then line[SkipSpace(line, 2)..] else line;
    StripKeeps(rest);
    Strip(rest)
  }

  /** `'\n'.join(lines[1:])`: the section after its first line. */
  function BodyOf(section: string): string {
    Join(Split(section, "\n")[1..], "\n")
  }

  /** The description both parsers compute: the body stripped, the owner markup removed by one
      `re.sub` pass, and the result stripped again. */
  function DescriptionOf(section: string): (r: string)
    ensures Trimmed(r)
    ensures |r| <= |section|
  {
    SplitLength(section, "\n");
    var body := Strip(BodyOf(section));
    OwnerMarkupAccounting(body);
    Strip(RemoveOwnerMarkup(body))
  }

  /** The pieces of a split are never longer together than the text they come from, so the
      body is no longer than its section. */
  lemma {:induction false} SplitLength(s: string, sep: string)
    requires sep != []
    ensures |Join(Split(s, sep)[1..], sep)| <= |s|
  {
    var r := Split(s, sep);
    assert Join(r, sep) == s;
    if |r| >= 2 {
      assert Join(r, sep) == r[0] + sep + Join(r[1..], sep);
    }
  }

  /** `re.search(MARKER + r'\s*([^\n]+)', section)` with the group stripped. */
  function FieldOf(section: string, marker: string): (r: Option<string>)
    requires marker != []
    ensures r.Some? ==> Trimmed(r.value) && '\n' !in r.value
  {
    FieldValue(section, marker)
  }

  // ================================================================ escaping

  /** `escape_html`: `&` is replaced first, then `<`, `>`, `"` and `'`. Because `&` goes first,
      no entity is escaped twice: the result is each character escaped on its own, it holds
      none of `<`, `>`, `"` and `'`, and decoding the entities gives the text back. */
  function EscapeHtml(s: string): (r: string)
    ensures r == EscapeEach(s)
    ensures '<' !in r && '>' !in r && '"' !in r && '\'' !in r
    ensures UnescapeHtml(r) == s
  {
    PassesEscapeEach(s);
    EscapeEachNoMarkup(s);
    UnescapeEach(s);
    EscapePasses(ReplaceChar(s, '&', "&amp;"))
  }

  /** The entity of one character, or the character itself. */
  function EscapeChar(c: char): string {
    if c == '&' then "&amp;"
    else if c == '<' then "&lt;"
    else if c == '>' then "&gt;"
    else if c == '"' then "&quot;"
    else if c == '\'' then "&#x27;"
    else [c]
  }

  /** Escaping one character at a time: the reference the chained replaces are checked against. */
  function EscapeEach(s: string): string {
    if s == [] then [] else EscapeChar(s[0]) + EscapeEach(s[1..])
  }

  /** The passes after the first one. */
  function EscapePasses(x: string): string {
    ReplaceChar(ReplaceChar(ReplaceChar(ReplaceChar(x, '<', "&lt;"), '>', "&gt;"), '"', "&quot;"), '\'', "&#x27;")
  }

  lemma EscapePassesAppend(a: string, b: string)
    ensures EscapePasses(a + b) == EscapePasses(a) + EscapePasses(b)
  {
    ReplaceCharAppend(a, b, '<', "&lt;");
    var a1 := ReplaceChar(a, '<', "&lt;");
    var b1 := ReplaceChar(b, '<', "&lt;");
    ReplaceCharAppend(a1, b1, '>', "&gt;");
    var a2 := ReplaceChar(a1, '>', "&gt;");
    var b2 := ReplaceChar(b1, '>', "&gt;");
    ReplaceCharAppend(a2, b2, '"', "&quot;");
    var a3 := ReplaceChar(a2, '"', "&quot;");
    var b3 := ReplaceChar(b2, '"', "&quot;");
    ReplaceCharAppend(a3, b3, '\'', "&#x27;");
  }

  lemma ReplaceOne(c: char, ch: char, rep: string)
    ensures ReplaceChar([c], ch, rep) == if c == ch then rep else [c]
  {
    assert [c][0] == c && [c][1..] == [];
  }

  /** The passes after the first one leave an entity alone. */
  lemma EscapePassesKeep(x: string)
    requires '<' !in x && '>' !in x && '"' !in x && '\'' !in x
    ensures EscapePasses(x) == x
  {
    ReplaceCharAbsent(x, '<', "&lt;");
    ReplaceCharAbsent(x, '>', "&gt;");
    ReplaceCharAbsent(x, '"', "&quot;");
    ReplaceCharAbsent(x, '\'', "&#x27;");
  }

  lemma EscapeLt()
    ensures EscapePasses("<") == "&lt;"
  {
    ReplaceOne('<', '<', "&lt;");
    var e := "&lt;";
    assert '>' !in e && '"' !in e && '\'' !in e;
    ReplaceCharAbsent(e, '>', "&gt;");
    ReplaceCharAbsent(e, '"', "&quot;");
    ReplaceCharAbsent(e, '\'', "&#x27;");
  }

  lemma EscapeGt()
    ensures EscapePasses(">") == "&gt;"
  {
    ReplaceOne('>', '<', "&lt;");
    ReplaceOne('>', '>', "&gt;");
    var e := "&gt;";
    assert '"' !in e && '\'' !in e;
    ReplaceCharAbsent(e, '"', "&quot;");
    ReplaceCharAbsent(e, '\'', "&#x27;");
  }

  lemma EscapeQuot()
    ensures EscapePasses("\"") == "&quot;"
  {
    ReplaceOne('"', '<', "&lt;");
    ReplaceOne('"', '>', "&gt;");
    ReplaceOne('"', '"', "&quot;");
    var e := "&quot;";
    assert '\'' !in e;
    ReplaceCharAbsent(e, '\'', "&#x27;");
  }

  lemma EscapeApos()
    ensures EscapePasses("'") == "&#x27;"
  {
    ReplaceOne('\'', '<', "&lt;");
    ReplaceOne('\'', '>', "&gt;");
    ReplaceOne('\'', '"', "&quot;");
    ReplaceOne('\'', '\'', "&#x27;");
  }

  lemma EscapeOne(c: char)
    ensures EscapePasses(ReplaceChar([c], '&', "&amp;")) == EscapeChar(c)
  {
    ReplaceOne(c, '&', "&amp;");
    if c == '&' {
      var e := "&amp;";
      assert '<' !in e && '>' !in e && '"' !in e && '\'' !in e;
      EscapePassesKeep(e);
    } else if c == '<' {
      EscapeLt();
    } else if c == '>' {
      EscapeGt();
    } else if c == '"' {
      EscapeQuot();
    } else if c == '\'' {
      EscapeApos();
    } else {
      EscapePassesKeep([c]);
    }
  }

  /** The chained replaces escape each character on its own. */
  lemma {:induction false} PassesEscapeEach(s: string)
    ensures EscapePasses(ReplaceChar(s, '&', "&amp;")) == EscapeEach(s)
  {
    if s != [] {
      PassesEscapeEach(s[1..]);
      var head := ReplaceChar([s[0]], '&', "&amp;");
      assert ReplaceChar(s, '&', "&amp;") == head + ReplaceChar(s[1..], '&', "&amp;") by {
        assert s == [s[0]] + s[1..];
        ReplaceCharAppend([s[0]], s[1..], '&', "&amp;");
      }
      EscapePassesAppend(head, ReplaceChar(s[1..], '&', "&amp;"));
      EscapeOne(s[0]);
    }
  }

  lemma EscapeCharNoMarkup(c: char)
    ensures var e := EscapeChar(c); '<' !in e && '>' !in e && '"' !in e && '\'' !in e
  {
  }

  lemma {:induction false} EscapeEachNoMarkup(s: string)
    ensures var e := EscapeEach(s); '<' !in e && '>' !in e && '"' !in e && '\'' !in e
  {
    if s != [] {
      EscapeEachNoMarkup(s[1..]);
      EscapeCharNoMarkup(s[0]);
      var a := EscapeChar(s[0]);
      var b := EscapeEach(s[1..]);
      assert EscapeEach(s) == a + b;
      assert forall x :: x in a + b ==> x in a || x in b;
    }
  }

  /** Text without the five special characters is left as it is. */
  lemma {:induction false} EscapePlain(s: string)
    requires '&' !in s && '<' !in s && '>' !in s && '"' !in s && '\'' !in s
    ensures EscapeHtml(s) == s
  {
    EscapeEachPlain(s);
  }

  lemma {:induction false} EscapeEachPlain(s: string)
    requires '&' !in s && '<' !in s && '>' !in s && '"' !in s && '\'' !in s
    ensures EscapeEach(s) == s
  {
    if s != [] {
      EscapeEachPlain(s[1..]);
      assert [s[0]] + s[1..] == s;
    }
  }

  /** Decoding the five entities: the inverse escaping is checked against. */
  function UnescapeHtml(s: string): string
    decreases |s|
  {
    if s == [] then []
    else if At(s, 0, "&amp;") then "&" + UnescapeHtml(s[5..])
    else if At(s, 0, "&lt;") then "<" + UnescapeHtml(s[4..])
    else if At(s, 0, "&gt;") then ">" + UnescapeHtml(s[4..])
    else if At(s, 0, "&quot;") then "\"" + UnescapeHtml(s[6..])
    else if At(s, 0, "&#x27;") then "'" + UnescapeHtml(s[6..])
    else [s[0]] + UnescapeHtml(s[1..])
  }

  lemma UnescapeHead(c: char, rest: string)
    ensures UnescapeHtml(EscapeChar(c) + rest) == [c] + UnescapeHtml(rest)
  {
    var s := EscapeChar(c) + rest;
    var e := EscapeChar(c);
    assert s[..|e|] == e && s[|e|..] == rest;
    if c == '&' {
      assert At(s, 0, "&amp;");
    } else if c == '<' {
      assert !At(s, 0, "&amp;") by { assert s[1] == 'l'; }
      assert At(s, 0, "&lt;");
    } else if c == '>' {
      assert !At(s, 0, "&amp;") && !At(s, 0, "&lt;") by { assert s[1] == 'g'; }
      assert At(s, 0, "&gt;");
    } else if c == '"' {
      assert !At(s, 0, "&amp;") && !At(s, 0, "&lt;") && !At(s, 0, "&gt;") by { assert s[1] == 'q'; }
      assert At(s, 0, "&quot;");
    } else if c == '\'' {
      assert !At(s, 0, "&amp;") && !At(s, 0, "&lt;") && !At(s, 0, "&gt;") && !At(s, 0, "&quot;") by {
        assert s[1] == '#';
      }
      assert At(s, 0, "&#x27;");
    } else {
      assert s[0] == c && s[1..] == rest;
      assert !At(s, 0, "&amp;") && !At(s, 0, "&lt;") && !At(s, 0, "&gt;") && !At(s, 0, "&quot;") && !At(s, 0, "&#x27;") by {
        assert s[0] != '&';
      }
    }
  }

  lemma {:induction false} UnescapeEach(s: string)
    ensures UnescapeHtml(EscapeEach(s)) == s
  {
    if s != [] {
      UnescapeEach(s[1..]);
      UnescapeHead(s[0], EscapeEach(s[1..]));
      assert [s[0]] + s[1..] == s;
    }
  }

  // ================================================================ rich text

  /** The description as both renderers write it: escaped, then `**b**`, `*i*` and `` `c` ``
      turned into `<strong>`, `<em>` and `<code>`, then every newline into `<br/>`. */
  function RichText(description: string): (r: string)
    ensures '\n' !in r
  {
    var escaped := EscapeHtml(description);
    var bold := Emphasize(escaped, "**", "<strong>", "</strong>");
    var italic := Emphasize(bold, "*", "<em>", "</em>");
    var code := Emphasize(italic, "`", "<code>", "</code>");
    ReplaceCharRemoves(code, '\n', "<br/>");
    ReplaceChar(code, '\n', "<br/>")
  }

  const CreatedLabel := "<br/><strong>Created:</strong> "
  const UpdatedLabel := "<br/><strong>Updated:</strong> "

  /** The metadata both renderers append to the description: the creation date and then the
      update date, each only when it is set. */
  function DateLines(d: Decision): string {
    CreatedLine(d) + UpdatedLine(d)
  }

  function CreatedLine(d: Decision): string {
    if d.dateCreated != [] then CreatedLabel + d.dateCreated else ""
  }

  function UpdatedLine(d: Decision): string {
    if d.dateUpdated.Some? && d.dateUpdated.value != [] then UpdatedLabel + d.dateUpdated.value else ""
  }

  lemma {:induction false} ReplaceCharRemoves(s: string, c: char, rep: string)
    requires c !in rep
    ensures c !in ReplaceChar(s, c, rep)
  {
    if s != [] {
      ReplaceCharRemoves(s[1..], c, rep);
    }
  }

  /** A description without markup characters is written as it is. */
  lemma RichTextPlain(description: string)
    requires '&' !in description && '<' !in description && '>' !in description
    requires '"' !in description && '\'' !in description
    requires '*' !in description && '`' !in description && '\n' !in description
    ensures RichText(description) == description
  {
    RichTextBreaks(description);
    ReplaceCharAbsent(description, '\n', "<br/>");
  }

  /** Without escaped or emphasis characters, only the line breaks change. */
  lemma RichTextBreaks(s: string)
    requires '&' !in s && '<' !in s && '>' !in s && '"' !in s && '\'' !in s && '*' !in s && '`' !in s
    ensures RichText(s) == ReplaceChar(s, '\n', "<br/>")
  {
    EscapePlain(s);
    EmphasizeAbsent(s, "**", "<strong>", "</strong>");
    EmphasizeAbsent(s, "*", "<em>", "</em>");
    EmphasizeAbsent(s, "`", "<code>", "</code>");
  }

  /** A line break in the description becomes `<br/>`, so lines written one after the other
      come out joined by it. */
  lemma RichTextLines(a: string, b: string)
    requires '&' !in a && '<' !in a && '>' !in a && '"' !in a && '\'' !in a && '*' !in a && '`' !in a && '\n' !in a
    requires '&' !in b && '<' !in b && '>' !in b && '"' !in b && '\'' !in b && '*' !in b && '`' !in b && '\n' !in b
    ensures RichText(a + "\n" + b) == a + "<br/>" + b
  {
    RichTextBreaks(a + "\n" + b);
    BreakBetween(a, b);
  }

  /** Two lines joined by a newline come out joined by `<br/>`. */
  lemma BreakBetween(a: string, b: string)
    requires '\n' !in a && '\n' !in b
    ensures ReplaceChar(a + "\n" + b, '\n', "<br/>") == a + "<br/>" + b
  {
    ReplaceCharAppend(a + "\n", b, '\n', "<br/>");
    ReplaceCharAppend(a, "\n", '\n', "<br/>");
    ReplaceCharAbsent(a, '\n', "<br/>");
    ReplaceCharAbsent(b, '\n', "<br/>");
    assert ReplaceChar("\n", '\n', "<br/>") == "<br/>";
  }

  // ================================================================ page header

  const Intro := "<p>This page contains all project decisions. It is automatically synchronized with markdown documents.</p>"

  /** The page header both scripts write: the title as the top heading, the fixed introduction,
      the time of the sync, the summary paragraph (possibly empty) and a rule. */
  function PageHeader(title: string, now: string, summary: string): (r: string)
    ensures StartsWith(r, "<h1>" + title + "</h1>\n")
  {
    var heading := "<h1>" + title + "</h1>\n";
    var rest := Intro + "\n<p><em>Last synchronized: " + now + "</em></p>" + summary + "<hr/>";
    StartsWithHead(heading, rest);
    heading + rest
  }

  // ================================================================ reading macros back

  /** The description cleaned as the extractor does: `<br>` and `<br/>` become newlines, other
      tags are removed, and the result is stripped. No tag is left in it (`CleanBreak`,
      `CleanSlashBreak` and `CleanTag` say what becomes of each kind). */
  function CleanDescription(raw: string): (r: string)
    ensures Trimmed(r) && TagFree(r)
  {
    StripTagsTagFree(BreaksToNewlines(raw));
    StripKeepsTagFree(StripTags(BreaksToNewlines(raw)));
    Strip(StripTags(BreaksToNewlines(raw)))
  }

  /** Text without tags is only stripped. */
  lemma CleanPlain(raw: string)
    requires '<' !in raw
    ensures CleanDescription(raw) == Strip(raw)
  {
    BreaksToNewlinesPlain(raw);
    StripTagsPlain(raw);
  }

  /** A `<br>` between plain texts becomes a line break. */
  lemma CleanBreak(a: string, b: string)
    requires '<' !in a && '<' !in b
    ensures CleanDescription(a + "<br>" + b) == Strip(a + "\n" + b)
  {
    BreaksToNewlinesBreak(a, b);
    BreaksToNewlinesPlain(b);
    StripTagsPlain(a + "\n" + b);
  }

  /** A `<br/>` between plain texts becomes a line break. */
  lemma CleanSlashBreak(a: string, b: string)
    requires '<' !in a && '<' !in b
    ensures CleanDescription(a + "<br/>" + b) == Strip(a + "\n" + b)
  {
    BreaksToNewlinesSlashBreak(a, b);
    BreaksToNewlinesPlain(b);
    StripTagsPlain(a + "\n" + b);
  }

  /** Any other tag between plain texts is removed whole. */
  lemma CleanTag(a: string, t: string, b: string)
    requires '<' !in a && '<' !in b && t != [] && '<' !in t && '>' !in t && t != "br" && t != "br/"
    ensures CleanDescription(a + "<" + t + ">" + b) == Strip(a + b)
  {
    BreaksKeepTag(a, t, b);
    BreaksToNewlinesPlain(b);
    StripTagsRemovesTag(a, t, b);
    StripTagsPlain(b);
  }

  /** One decision read from a decision macro with id `id` and inner markup `content`: the
      title and owner parameters when present (they hold no `<`), otherwise `Decision <id>`
      and `Unassigned`; the cleaned paragraph of the rich-text body, which is trimmed and
      tag-free, or the empty text without one; status `OPEN`, creation date `today`, the
      macro's markup as original text, and the hash of its own fingerprint. */
  function ExtractDecision(id: string, content: string, hash: string -> string, today: string): (d: Decision)
    ensures ParamValue(content, "title").Some? ==> d.title == ParamValue(content, "title").value && '<' !in d.title
    ensures ParamValue(content, "title").None? ==> d.title == "Decision " + id
    ensures ParamValue(content, "owner").Some? ==> d.owner == ParamValue(content, "owner").value && '<' !in d.owner
    ensures ParamValue(content, "owner").None? ==> d.owner == "Unassigned"
    ensures BodyParagraph(content).Some? ==> d.description == CleanDescription(BodyParagraph(content).value)
    ensures BodyParagraph(content).None? ==> d.description == ""
    ensures Trimmed(d.description) && TagFree(d.description)
    ensures d.status == "OPEN" && d.source == Confluence && d.originalText == content && d.dateUpdated == None
    ensures today != [] ==> d.dateCreated == today
    ensures Fingerprinted(hash, d)
  {
    var title := match ParamValue(content, "title") case Some(t) => t case None => "Decision " + id;
    var owner := match ParamValue(content, "owner") case Some(o) => o case None => "Unassigned";
    var description := match BodyParagraph(content) case Some(b) => CleanDescription(b) case None => "";
    NewDecision(title, owner, description, content, hash(Fingerprint(title, owner, description)),
                "OPEN", None, Confluence, today)
  }

  /** The loop of `extract_existing_decisions` over the macros the pattern matched. */
  method ExtractFromMatches(matches: seq<(string, string)>, hash: string -> string, today: string)
    returns (decisions: seq<Decision>)
    ensures |decisions| == |matches|
    ensures forall k :: 0 <= k < |matches| ==> decisions[k] == ExtractDecision(matches[k].0, matches[k].1, hash, today)
  {
    var read := (m: (string, string)) => ExtractDecision(m.0, m.1, hash, today);
    decisions := [];
    var i := 0;
    while i < |matches|
      invariant 0 <= i <= |matches|
      invariant decisions == MapSeq(read, matches[..i])
    {
      var (macroId, macroContent) := matches[i];
      decisions := decisions + [ExtractDecision(macroId, macroContent, hash, today)];
      MapSeqSnoc(read, matches, i);
      i := i + 1;
    }
    assert matches[..i] == matches;
    MapSeqAt(read, matches);
  }

  /** `extract_existing_decisions`: one record per decision macro on the page, in page order. */
  method ExtractExistingDecisions(page: string, hash: string -> string, today: string) returns (decisions: seq<Decision>)
    ensures var matches := DecisionMacros(page, 0);
      |decisions| == |matches|
      && forall k :: 0 <= k < |matches| ==> decisions[k] == ExtractDecision(matches[k].0, matches[k].1, hash, today)
  {
    var matches := DecisionMacros(page, 0);
    decisions := ExtractFromMatches(matches, hash, today);
  }
}
