# Confluence decision log and status counter, modelled in Dafny

Three small scripts keep a Confluence page in step with a markdown decision log and count the
status macros on a page:

- `confluence_decision_logger.py`:
  - cuts a markdown document into decisions, one per `## ` heading;
  - reads the decisions already on the Confluence page;
  - reconciles the two lists by title and fingerprint;
  - writes the page back as HTML sections, newest first.
- `confluence_decision_sync_enhanced.py` does the same, with these differences:
  - it keeps only the first `[[Owner]]`;
  - it does not infer a status from keywords;
  - it writes each decision as a Confluence `decision` macro;
  - it keeps the decisions in their input order.
- `status_counter.py`:
  - collects the (colour, title) pair of every `status` macro on a page;
  - counts the pairs and builds a table with one row per pair and one total per colour;
  - splices the table between two marker comments, or appends it with the markers when they are
    missing.

The model is split into these modules:

- `Text` (`text.dfy`): the Python string operations the scripts use:
  - `strip`, `split`, `join`, `find`, `replace` and `str(n)`;
  - generic loops that collect, append or map over a list.
- `Markup` (`markup.dfy`): each regular expression the scripts apply, as a hand-written scanner:
  - it makes the choices Python's `re` makes for that one pattern;
  - the patterns are the `[[owner]]` pattern, `**Status**:`/`**Date**:` fields, word
    searches, parameter elements, tag removal, emphasis, status macros and the decision-macro
    pattern.
- `Decisions` (`decisions.dfy`): what both decision scripts share:
  - the `Decision` record and the fingerprint;
  - section splitting, titles and descriptions;
  - HTML escaping and rich-text rendering;
  - the extractor of decisions already on the page.
- `Sync` (`sync.dfy`): `sync_decisions`, which is the same in both scripts.
- `Sorting` (`sorting.dfy`): Python's stable `sorted(..., reverse=True)` as an insertion sort.
- `DecisionLogger` (`logger.dfy`) and `DecisionSyncEnhanced` (`enhanced.dfy`): what differs
  between the two decision scripts.
- `Counting` (`counting.dfy`): a Python dict updated with `d[k] = d.get(k, 0) + n`, keeping its
  keys in insertion order.
- `StatusCounter` (`status.dfy`): the status-macro counter.

The loops of the scripts are methods, each proved equal to a specification function. That
function's properties are then proved as lemmas:

- `parse_markdown_decisions`;
- the two loops of `sync_decisions`;
- `extract_existing_decisions`;
- `create_decision_macro_xml`;
- `create_decisions_page_content` (the enhanced version);
- `extract_color_title_pairs`;
- `generate_table_html`;
- `main`.

These are parameters of the model:

- The md5 fingerprint is a function `hash` of the `title|owner|description` text.
- The current date and time are strings `today` and `now`.
- Every page body, and the title the page-content builders fetch, is an input.

Where the code and the scripts' own descriptions part ways, the model follows the code:

- A `[[Name]]` on the heading line stays in the title.
- An explicit `**Status**:` value is kept as written. `Approved` is not turned into `DECIDED`.
- The logger computes a status colour and a status macro in `create_decision_macro_xml` but
  never emits them.
- Keywords are looked for anywhere in the section, heading included.
- `**Status**:` followed by spaces and a line break takes its value from the next non-empty line,
  because `\s*` crosses the newline.

## Model

| member | source | states |
|---|---|---|
| Text.Strip | confluence_decision_logger.py:109 | `strip()` gives the slice of its argument left after removing a leading and a trailing run of whitespace; it has no whitespace at either end |
| Text.StripIdempotent | confluence_decision_logger.py:132-133 | stripping an already stripped text changes nothing |
| Text.ContainsStripped | confluence_decision_logger.py:197-203 | a word that begins and ends with a non-whitespace character occurs in the stripped text exactly when it occurs in the text |
| Text.Split | confluence_decision_logger.py:101 | the pieces of `re.split` on a literal separator joined by the separator give the text back, there is at least one, and none holds the separator |
| Text.SplitJoin | confluence_decision_logger.py:101 | splitting pieces joined by the separator gives the pieces back when none holds the separator's first character |
| Text.Find | status_counter.py:134-135 | a reported occurrence is at or after the start and the pattern is there |
| Text.FindLeftmost | status_counter.py:134-135 | `find`/`index` reports the leftmost occurrence, and nothing only when there is none |
| Text.NatToStringRoundTrip | status_counter.py:102 | a count written in decimal reads back as the same count |
| Text.SomesFrom | confluence_decision_logger.py:102-145 | a value is kept exactly when some element, taken with its index, yields it |
| Text.CollectSomes | confluence_decision_logger.py:100-146 | the loop that appends each value an element yields builds the list of those values, in order |
| Text.AppendRows | status_counter.py:99-102 | the loop that grows a text with `+=` by one row per element builds the rows in order after the head |
| Text.RowsConcat | status_counter.py:99-102 | the appended rows are the concatenation of the mapped list |
| Text.ReplaceCharAppend | confluence_decision_logger.py:182 | `replace` of one character works piece by piece over a concatenation |
| Text.ReplaceCharAbsent | confluence_decision_logger.py:182 | `replace` of a character the text does not hold changes nothing |
| Markup.OwnerPiecesShow | confluence_decision_logger.py:112 | the `[[name]]` tokens and plain characters the owner pattern cuts a text into give the text back |
| Markup.OwnerScansAgree | confluence_decision_logger.py:112-133 | `findall` reports the names of exactly the tokens `sub` deletes, `sub` keeps exactly the other characters, and every name is a non-empty run without `]` |
| Markup.OwnerMarkupAccounting | confluence_decision_logger.py:112-133 | the text removal deletes has the length of `[[name]]` summed over the names `findall` reports |
| Markup.NoOwnerMarkup | confluence_decision_logger.py:133 | a text without `[` has no owners and loses nothing to the removal |
| Markup.OwnerToken | confluence_decision_logger.py:112-133 | a single `[[name]]` is reported by name and removed whole |
| Markup.RemovalCanLeaveMarkup | confluence_decision_logger.py:133 | one `re.sub` pass turns `[[x][[y]]]` into `[[x]]`: the description can still hold owner markup |
| Markup.FieldValue | confluence_decision_logger.py:115-117 | a `**Status**:`-style value is stripped and on one line, and is found only where the marker occurs |
| Markup.FieldValueHit | confluence_decision_logger.py:115-117 | the value is read after the first occurrence of the marker |
| Markup.FieldValueAfterMarker | confluence_decision_logger.py:129-130 | a marker followed by a space, a stripped one-line value and a newline yields that value |
| Markup.FindWord | confluence_decision_logger.py:120 | `re.search(r'\bW\b', s, re.IGNORECASE)` succeeds exactly when the word occurs, case ignored, with no word character on either side |
| Markup.ContainsAnyWord | confluence_decision_logger.py:120-126 | an alternation of words succeeds exactly when one of the words occurs as a whole word |
| Markup.TagValueFrom | confluence_decision_logger.py:156-159 | the `([^<]*)` group between two literal tags holds no `<` |
| Markup.TagValueRoundTrip | confluence_decision_logger.py:156-159 | a value without `<` written between the tags, after a text without `<`, is read back |
| Markup.ParamValue | confluence_decision_sync_enhanced.py:174-179 | a parameter value holds no `<` |
| Markup.ParamValueRoundTrip | confluence_decision_sync_enhanced.py:174-175 | a parameter element written out is read back with its value |
| Markup.SecondParamValue | confluence_decision_sync_enhanced.py:178-179 | the owner parameter written after the title parameter is read back with its own value |
| Markup.ChainEnd | confluence_decision_sync_enhanced.py:182 | the group `[^<]*(?:<[^>]*>[^<]*)*` ends just before a `</p>` followed by optional whitespace and the closing body tag |
| Markup.StripTags | confluence_decision_sync_enhanced.py:187 | removing tags never lengthens the text |
| Markup.StripTagsRemovesTag | confluence_decision_sync_enhanced.py:187 | a tag is deleted whole and the text before it is kept |
| Markup.StripTagsPlain | confluence_decision_sync_enhanced.py:187 | a text without `<` has no tags to remove |
| Markup.StripTagsTagFree | confluence_decision_sync_enhanced.py:187 | after tag removal no tag is left: each remaining `<` is directly followed by `>` or has no `>` after it |
| Markup.BreaksToNewlinesPlain | confluence_decision_sync_enhanced.py:186 | a text without `<` has no `<br>` to turn into a newline |
| Markup.BreaksToNewlinesBreak | confluence_decision_sync_enhanced.py:186 | a `<br>` after text without `<` becomes a newline, and the rest is scanned on |
| Markup.BreaksToNewlinesSlashBreak | confluence_decision_sync_enhanced.py:186 | a `<br/>` after text without `<` becomes a newline, and the rest is scanned on |
| Markup.BreaksKeepTag | confluence_decision_sync_enhanced.py:186 | any other tag is left in place by the break substitution |
| Markup.EmphasisEnd | confluence_decision_sync_enhanced.py:228-232 | the lazy `(.*?)` span closes at the first delimiter after the opening one, with no newline inside |
| Markup.EmphasizeSpan | confluence_decision_sync_enhanced.py:228-232 | a delimited one-line span becomes its opening tag, its text and its closing tag, and the scan resumes after it |
| Markup.EmphasizeAbsent | confluence_decision_sync_enhanced.py:228-232 | a text without the delimiter is left alone |
| Markup.ElementAt | status_counter.py:46-47 | a status-macro match starts with the opening tag and ends with the closing tag, case ignored |
| Markup.FirstElement | status_counter.py:51-63 | `re.search` finds nothing exactly when no position starts a matching element |
| Markup.MacroIdFromSkip | confluence_decision_sync_enhanced.py:169 | the lazy `[^>]*?` passes over the places where `ac:macro-id="` does not begin |
| Markup.MacroIdHere | confluence_decision_sync_enhanced.py:169 | where the attribute begins, the id runs to the next `"`, the tag to the next `>`, and the body to the first closing tag |
| Markup.MacroIdFromHit | confluence_decision_sync_enhanced.py:169 | the lazy scan stops at the first place where the rest of the pattern matches |
| Markup.DecisionMacroAt | confluence_decision_sync_enhanced.py:169-170 | a decision-macro match ends after its start and within the page |
| Decisions.NewDecision | confluence_decision_sync_enhanced.py:45-59 | the constructor keeps every field given, leaves `date_updated` unset, and replaces a missing or empty creation date by today's date |
| Decisions.Fingerprint | confluence_decision_logger.py:134 | the fingerprint text is as long as title, owner and description plus the two separators, and when the title holds no `\|` the first `\|` ends the title |
| Decisions.SameContentSameHash | confluence_decision_logger.py:134-135 | decisions with the same title, owner and description have the same hash, whatever their status or dates |
| Decisions.FingerprintInjective | confluence_decision_logger.py:134 | the fingerprint text tells (title, owner, description) apart when title and owner hold no `\|` |
| Decisions.FingerprintCollision | confluence_decision_logger.py:134 | a `\|` inside a title can stand for the separator: two different triples share a fingerprint |
| Decisions.SectionText | confluence_decision_logger.py:102-106 | a section is skipped exactly when it is the preamble; otherwise it starts with `## ` |
| Decisions.TitleOf | confluence_decision_logger.py:107-109 | the title is stripped and on one line |
| Decisions.DescriptionOf | confluence_decision_logger.py:131-133 | the description is stripped and no longer than its section |
| Decisions.FieldOf | confluence_decision_logger.py:129-130 | a `**Date**:` value is stripped and on one line |
| Decisions.EscapeHtml | confluence_decision_logger.py:181-182 | because `&` is replaced first, escaping treats each character on its own with no double escaping; the result holds none of `<`, `>`, `"` and `'`; decoding the entities gives the text back |
| Decisions.EscapePlain | confluence_decision_logger.py:181-182 | text without the five special characters is unchanged by escaping |
| Decisions.RichText | confluence_decision_logger.py:183-189 | the rendered description holds no newline |
| Decisions.RichTextPlain | confluence_decision_logger.py:183-189 | a one-line description without special or markup characters is written as it is |
| Decisions.RichTextLines | confluence_decision_logger.py:186-189 | two plain lines come out joined by `<br/>` |
| Decisions.CleanDescription | confluence_decision_sync_enhanced.py:186-188 | the cleaned description is stripped and no tag is left in it |
| Decisions.CleanBreak | confluence_decision_sync_enhanced.py:186-188 | a `<br>` between texts without tags becomes a newline before the result is stripped |
| Decisions.CleanSlashBreak | confluence_decision_sync_enhanced.py:186-188 | a `<br/>` between texts without tags becomes a newline before the result is stripped |
| Decisions.CleanTag | confluence_decision_sync_enhanced.py:186-188 | any other tag between texts without tags is removed whole before the result is stripped |
| Decisions.CleanPlain | confluence_decision_sync_enhanced.py:186-188 | a description without tags is only stripped |
| Decisions.ExtractDecision | confluence_decision_sync_enhanced.py:172-201 | the title and owner are the parameter values (without `<`), or `Decision <id>` and `Unassigned` when missing; the description is the cleaned body paragraph or empty, stripped and without tags; status `OPEN`, source `confluence`, the macro content as the original text, no update date, a non-empty `today` as creation date, and the hash of its own fingerprint |
| Decisions.ExtractFromMatches | confluence_decision_sync_enhanced.py:172-201 | the loop yields one decision per match, the k-th from the k-th match |
| Decisions.ExtractExistingDecisions | confluence_decision_sync_enhanced.py:158-204 | one decision per decision macro on the page, in page order |
| Decisions.PageHeader | confluence_decision_logger.py:260-265 | the header opens with the page title as its `<h1>` heading |
| Sync.Titles | confluence_decision_logger.py:224 | the titles, one per decision, in order |
| Sync.ByTitle | confluence_decision_logger.py:224-225 | the dict has exactly the titles as keys, each mapped to a decision of that title from the list |
| Sync.ByTitleLast | confluence_decision_logger.py:224-225 | the dict keeps the last decision of each title |
| Sync.Resolve | confluence_decision_logger.py:227-238 | a new decision is kept exactly as it is; a changed one is kept with only `date_updated` set to now; an unchanged one is replaced by the page's version; the hash is always the markdown one |
| Sync.Resolved | confluence_decision_logger.py:226-238 | one merged entry per markdown decision, in markdown order |
| Sync.ResolveMarkdown | confluence_decision_logger.py:226-238 | the loop over the markdown decisions builds the resolved entries and the three buckets |
| Sync.AppendRemoteOnly | confluence_decision_logger.py:239-241 | the loop over the page decisions appends, in page order, those whose title is not in the markdown |
| Sync.SyncDecisions | confluence_decision_logger.py:221-242 | the merged list is the resolved markdown entries followed by the page-only decisions, and the result lists the three buckets |
| Sync.BucketsPartition | confluence_decision_logger.py:226-238 | the added, updated and unchanged buckets together hold each markdown title exactly once |
| Sync.BucketMembers | confluence_decision_logger.py:226-238 | a title is in a bucket exactly when a markdown decision of that title is classified into it |
| Sync.RemoteOnlyMembers | confluence_decision_logger.py:239-241 | a decision is appended at the end exactly when it is on the page and its title is not in the markdown |
| Sync.RemoteOnlyUnreported | confluence_decision_sync_enhanced.py:287-293 | a page-only decision appears in no bucket |
| Sync.SyncAgainstEmptyPage | confluence_decision_logger.py:221-242 | against an empty page every decision is added and the merged list is the markdown list |
| Sync.SyncAgainstItself | confluence_decision_logger.py:221-242 | a list with distinct titles synced against itself is unchanged throughout |
| Sync.SummaryCounts | confluence_decision_logger.py:264 | the three counts of the summary line add up to the number of markdown decisions |
| Sorting.SortDescSorted | confluence_decision_logger.py:274 | the sort puts the keys in descending order and is a permutation of its input |
| Sorting.SortDescStable | confluence_decision_logger.py:274 | the sort is stable: the elements with the same key keep their input order |
| DecisionLogger.InferredStatus | confluence_decision_logger.py:118-128 | `DECIDED` exactly when a decided word occurs; `DEFERRED` exactly when no decided or in-progress word occurs and a deferred word does; otherwise `OPEN` |
| DecisionLogger.ParseMarkdownDecisions | confluence_decision_logger.py:98-146 | the loop over the sections yields the decisions of the sections that have one, in order |
| DecisionLogger.SectionDecisionFields | confluence_decision_logger.py:103-145 | a parsed decision has `## ` put back, a non-empty stripped title, all owners joined by `, ` or `Unassigned`, the explicit status or the inferred one, the `**Date**:` value when it is non-empty and today's date when it is missing or empty, the stripped description and its fingerprint |
| DecisionLogger.PreambleSkipped | confluence_decision_logger.py:103-104 | the text before the first heading never yields a decision |
| DecisionLogger.ParsedWellFormed | confluence_decision_logger.py:105-145 | every parsed decision has a non-empty stripped one-line title, a stripped description, source `markdown` and its fingerprint |
| DecisionLogger.NoHeadingNoDecisions | confluence_decision_logger.py:101-104 | markdown without a heading yields no decision |
| DecisionLogger.OwnersRecoverable | confluence_decision_logger.py:112-114 | the joined owner text splits back into the names when no name holds a comma |
| DecisionLogger.StatusColour | confluence_decision_logger.py:195-205 | Green exactly when the upper-cased status holds `APPROVE`, `DECIDED` or `ACCEPTED`; otherwise Yellow exactly when it holds `DEFER` or `POSTPONE`; otherwise Blue exactly when it holds `OPEN` or `IN PROGRESS`; otherwise Grey (the empty status included) |
| DecisionLogger.Participants | confluence_decision_logger.py:213 | an owner text without a comma is only stripped |
| DecisionLogger.DecisionHtml | confluence_decision_logger.py:215-219 | the section opens with `<h2>`, and its heading, read up to the next `<` and unescaped, gives the title back |
| DecisionLogger.DecisionHtmlIgnoresStatus | confluence_decision_logger.py:207-219 | the status macro is built but not emitted: decisions that differ only in status render alike |
| DecisionLogger.ParticipantsOfOwners | confluence_decision_logger.py:213 | re-splitting and stripping an owner list written as stripped names joined by `, ` gives it back unchanged |
| DecisionLogger.ParseDate | confluence_decision_logger.py:268-272 | a date `strptime` accepts has a year from 1 to 9999, a month from 1 to 12 and a day within that month |
| DecisionLogger.ParseFormatDate | confluence_decision_logger.py:268-272 | a date written as `%Y-%m-%d` reads back as the same date |
| DecisionLogger.OrdinalOrder | confluence_decision_logger.py:268-274 | the sort key orders dates by year, then month, then day |
| DecisionLogger.DateKeyOfFormatted | confluence_decision_logger.py:268-274 | a well-formed creation date sorts by that date |
| DecisionLogger.DateKey | confluence_decision_logger.py:268-272 | a creation date `strptime` accepts sorts as that date; a missing or rejected one sorts as 1900-01-01 |
| DecisionLogger.PageOrder | confluence_decision_logger.py:267-274 | the page lists every decision once, newest first, and decisions of the same date in their input order |
| DecisionLogger.PageSections | confluence_decision_logger.py:275-276 | the page holds one section per decision |
| DecisionLogger.PageContent | confluence_decision_logger.py:255-277 | the page opens with the fetched page title as its `<h1>` heading, or `Decision Log` when the title cannot be fetched |
| DecisionSyncEnhanced.ParseMarkdownDecisions | confluence_decision_sync_enhanced.py:94-156 | the loop over the sections yields the decisions of the sections that have one, in order |
| DecisionSyncEnhanced.SectionDecisionFields | confluence_decision_sync_enhanced.py:106-154 | a parsed decision has the first `[[Name]]` or `Unassigned` as its owner, the explicit status or exactly `OPEN`, the `**Date**:` value when it is non-empty and today's date when it is missing or empty, the stripped description and its fingerprint |
| DecisionSyncEnhanced.FirstOfLoggerOwners | confluence_decision_sync_enhanced.py:124-125 | the owner is the first of the names the logger would join, and the logger's owner text starts with it |
| DecisionSyncEnhanced.ParsedWellFormed | confluence_decision_sync_enhanced.py:106-154 | every parsed decision has a non-empty stripped one-line title, a stripped description and status, source `markdown` and its fingerprint |
| DecisionSyncEnhanced.CreateDecisionMacroXml | confluence_decision_sync_enhanced.py:210-253 | the description grown with `+=` and the macro template give the rendered macro |
| DecisionSyncEnhanced.StatusLineUnlessOpen | confluence_decision_sync_enhanced.py:238-239 | the status line is written exactly when the status is not `OPEN` |
| DecisionSyncEnhanced.CreateDecisionsPageContent | confluence_decision_sync_enhanced.py:297-329 | the page is the header followed by the macros of the decisions in input order, joined by `\n<br/>\n` |
| DecisionSyncEnhanced.PageContent | confluence_decision_sync_enhanced.py:303-312 | the page opens with the fetched page title as its `<h1>` heading, or with the page id the caller passed as the title when it cannot be fetched |
| DecisionSyncEnhanced.PageMacros | confluence_decision_sync_enhanced.py:321-324 | one macro per decision, the k-th for the k-th decision |
| DecisionSyncEnhanced.OpenTagReadBack | confluence_decision_sync_enhanced.py:169-170 | the extractor's pattern reads the written opening tag back with the id, and the inner markup up to the closing tag |
| DecisionSyncEnhanced.MacroXml | confluence_decision_sync_enhanced.py:245-251 | a page holding one rendered macro is matched once, with `ac:macro-id` equal to the hash and the inner markup as content |
| DecisionSyncEnhanced.ParamsReadBack | confluence_decision_sync_enhanced.py:245-247 | the title and owner parameters of a rendered macro read back as the escaped title and owner |
| DecisionSyncEnhanced.ExtractRendered | confluence_decision_sync_enhanced.py:172-179 | extracting a rendered macro gives one decision whose title and owner are the escaped ones |
| DecisionSyncEnhanced.EscapeChangesAmpersand | confluence_decision_sync_enhanced.py:215-224 | escaping changes a text holding `&`, so such a title is read back as a different title |
| DecisionSyncEnhanced.EscapeEachLonger | confluence_decision_sync_enhanced.py:215-220 | escaping never shortens a text, and lengthens one holding `&` |
| Counting.TallyBy | status_counter.py:108-110 | the loop of `d[k] = d.get(k, 0) + n` builds the accumulated dict with its keys in insertion order |
| Counting.AddUpdates | status_counter.py:110 | a new key is appended to the key order and an existing one keeps its place, and its value grows by `n` |
| Counting.AccumulateKeys | status_counter.py:108-110 | no key is listed twice, and the keys are exactly those of the entries |
| Counting.AccumulateTotals | status_counter.py:108-110 | each key holds the sum of the amounts of its entries |
| Counting.AccumulateSum | status_counter.py:107-110 | the values held add up to the sum of all the amounts |
| Counting.AccumulateOrder | status_counter.py:113 | keys are listed in the order of their first appearance |
| Counting.Items | status_counter.py:113 | `items()` lists each key with its value, in key order |
| Counting.ItemsSum | status_counter.py:113-116 | the values of the items add up to the values held |
| StatusCounter.ParamText | status_counter.py:51-63 | the value is the stripped text of the first matching parameter element, or the default when the block has none |
| StatusCounter.ExtractColorTitlePairs | status_counter.py:31-67 | the loop yields the pair of each status macro, in page order |
| StatusCounter.PairsPerBlock | status_counter.py:46-67 | exactly one pair per status macro, in page order; its colour is the stripped first colour parameter or `Grey`, its title the stripped first title parameter or `Unknown` |
| StatusCounter.CounterCounts | status_counter.py:178 | `Counter` lists each distinct pair once, counts how often it occurs, and its counts add up to the number of pairs |
| StatusCounter.BuildStatusMacro | status_counter.py:69-78 | the macro opens with the status-macro tag, holds the colour and the title parameters with both values inserted unchanged, and ends with the closing macro tag |
| StatusCounter.GenerateTableHtml | status_counter.py:80-119 | the loops build the head, the pair rows, the separator, the colour rows and the foot |
| StatusCounter.TableLayout | status_counter.py:93-118 | one row per counted pair in counter order, then the separator, then one row per colour |
| StatusCounter.ColourTotalsSum | status_counter.py:107-116 | each colour appears once, it is a colour of some pair, its total is the sum of its pairs' counts, and the totals add up to the pair counts |
| StatusCounter.SpliceBoth | status_counter.py:133-140 | with both markers, the text up to the end of the begin marker and from the end marker on is kept, and `\n` + table + `\n` lies between |
| StatusCounter.SpliceAppend | status_counter.py:141-143 | with a marker missing, the old text is a prefix and is followed by the begin marker, the table and the end marker on their own lines |
| StatusCounter.SpliceBetween | status_counter.py:133-143 | the spliced text holds both markers |
| StatusCounter.Resplice | status_counter.py:133-143 | splicing a second table into a spliced text gives what splicing it into the original would |
| StatusCounter.ReplaceTable | status_counter.py:130-143 | running the page update twice leaves the second table where the first was |
| StatusCounter.MarkersApart | status_counter.py:130-131 | the markers are one line each, and the end marker does not occur inside the begin marker |
| StatusCounter.UpdatePage | status_counter.py:121-149 | the written version is the current one plus 1, and the written body holds both markers |
| StatusCounter.CountStatuses | status_counter.py:168-180 | nothing is written exactly when the page has no status macro; otherwise the counted table is spliced in |
| StatusCounter.StatusTableTotals | status_counter.py:173-179 | the pair rows and the colour rows each account for every status macro of the page exactly once |

## Left out

- HTTP and Confluence calls are left out: the client constructor, `get_page_by_id`, `update_page`, `requests.get`/`put` and `fetch_page`.
  - Page bodies, the page title and the version number are inputs.
  - The update is returned as a value.
  - Failures and the `except` paths that print and return `[]` are not modelled.
- `load_dotenv`, environment variables, `argparse`, `input()`, `print` and `sys.exit` are left out. They are plumbing.
- `sync_page_with_markdown`, both scripts' `main`, the `--no-preserve` and `--dry-run` flags, and `la-bel-confluence.py` are not part of this model.
- `hashlib.md5(...).hexdigest()[:8]` is the parameter `hash`, applied to the fingerprint text. Nothing is assumed about it.
- `datetime.now()` is the parameters `today` and `now`. The `%Y-%m-%d` format is modelled as `FormatDate` for four-digit years; the `%Y-%m-%d %H:%M:%S` time in the header is the input `now`.
- Case-insensitive matching, `str.upper`, `\w`, `\b` and `str.isspace` are modelled for ASCII only.
- DecisionLogger.ParseDate: accepts ASCII digits only, where the `\d` of `strptime` also accepts other Unicode digits.
- Only the regular expressions the scripts use are modelled, each as a scanner for its one pattern. There is no general regex engine.
- In-place mutation is modelled on values:
  - `sync_decisions` sets `md_decision.date_updated` on the caller's object, and the caller's list seeing that change is not modelled;
  - the `SyncResult` lists and the merged list are sequences the loops reassign.
- StatusCounter.BuildStatusMacro: does not prove that the counter reads a written status macro back as its (colour, title) pair.
- DecisionSyncEnhanced.ExtractRendered: proves the read-back of the title and the owner only. The description is not proved to read back.
  - The status and date lines the renderer appends sit inside the paragraph the extractor reads.
- DecisionSyncEnhanced.MacroXml: the read-back requires that the rendered inner markup holds no closing macro tag and that the hash holds no `"` or `>`.
- Decisions.DescriptionOf: does not state that the description is free of `[[...]]` markup, because one removal pass can leave some behind (`Markup.RemovalCanLeaveMarkup`).
- StatusCounter.ReplaceTable: requires the first table not to hold the end marker, and the begin marker to end before the end marker when both are present.
