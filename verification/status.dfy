/** The status counter: it reads the (colour, title) pair of every status macro on a page,
    counts equal pairs, renders the counts and the per-colour totals as a table of status
    macros, and writes the table between the page's table markers. */
module StatusCounter {
  import opened Text
  import opened Markup
  import opened Counting

  // ================================================================ reading the page

  const StatusOpen := "<ac:structured-macro"
  const StatusAttr := "ac:name=\"status\""
  const ParamTag := "<ac:parameter"
  const ColourAttr := "ac:name=\"colour\""
  const TitleAttr := "ac:name=\"title\""

  /** A status as the page shows it: its colour and its text. */
  datatype Pair = Pair(colour: string, title: string)

  /** The bodies of the status macros, in page order. */
  function Blocks(page: string): seq<string> {
    Elements(page, 0, StatusOpen, StatusAttr, MacroClose)
  }

  /** The stripped text of the first parameter element carrying `attr`, or `default` when the
      block has none. */
  function ParamText(block: string, attr: string, default: string): (r: string)
    ensures FirstElement(block, 0, ParamTag, attr, ParamClose).None? ==> r == default
    ensures FirstElement(block, 0, ParamTag, attr, ParamClose).Some? ==>
      r == Strip(FirstElement(block, 0, ParamTag, attr, ParamClose).value)
  {
    match FirstElement(block, 0, ParamTag, attr, ParamClose)
    case Some(v) => Strip(v)
    case None => default
  }

  /** The colour defaults to "Grey" and the title to "Unknown". */
  function PairOf(block: string): Pair {
    Pair(ParamText(block, ColourAttr, "Grey"), ParamText(block, TitleAttr, "Unknown"))
  }

  /** One pair per status macro, in page order. */
  function Pairs(page: string): seq<Pair> {
    MapSeq(PairOf, Blocks(page))
  }

  method ExtractColorTitlePairs(page: string) returns (pairs: seq<Pair>)
    ensures pairs == Pairs(page)
  {
    var blocks := Blocks(page);
    pairs := [];
    var i := 0;
    while i < |blocks|
      invariant i <= |blocks|
      invariant pairs == MapSeq(PairOf, blocks[..i])
    {
      var colour := ParamText(blocks[i], ColourAttr, "Grey");
      var title := ParamText(blocks[i], TitleAttr, "Unknown");
      pairs := pairs + [Pair(colour, title)];
      MapSeqSnoc(PairOf, blocks, i);
      i := i + 1;
    }
    assert blocks[..i] == blocks;
  }

  /** Exactly one pair per status macro, in page order, with the defaults filled in and found
      values stripped. */
  lemma PairsPerBlock(page: string)
    ensures |Pairs(page)| == |Blocks(page)|
    ensures forall i :: 0 <= i < |Blocks(page)| ==> Pairs(page)[i] == PairOf(Blocks(page)[i])
    ensures forall i :: 0 <= i < |Blocks(page)| ==>
      var colour := FirstElement(Blocks(page)[i], 0, ParamTag, ColourAttr, ParamClose);
      var title := FirstElement(Blocks(page)[i], 0, ParamTag, TitleAttr, ParamClose);
      && Pairs(page)[i].colour == (if colour.Some? then Strip(colour.value) else "Grey")
      && Pairs(page)[i].title == (if title.Some? then Strip(title.value) else "Unknown")
  {
    MapSeqAt(PairOf, Blocks(page));
  }

  // ================================================================ counting

  function Self(p: Pair): Pair {
    p
  }

  function One(p: Pair): nat {
    1
  }

  /** `Counter(pairs)`: each distinct pair, in order of first appearance, with its count. */
  function Counter(pairs: seq<Pair>): Tally<Pair> {
    Accumulate(pairs, Self, One)
  }

  /** Each counted pair occurs in the input exactly as often as its count says, every pair of the
      input is counted, none twice, and the counts add up to the number of pairs. */
  lemma CounterCounts(pairs: seq<Pair>)
    ensures Distinct(Counter(pairs).keys)
    ensures forall p :: p in Counter(pairs).keys <==> p in pairs
    ensures forall p :: p in Counter(pairs).total ==> Counter(pairs).total[p] == multiset(pairs)[p] >= 1
    ensures SumOver(Counter(pairs).keys, Counter(pairs).total) == |pairs|
  {
    AccumulateKeys(pairs, Self, One);
    AccumulateTotals(pairs, Self, One);
    AccumulateSum(pairs, Self, One);
    forall p
      ensures SumFor(pairs, Self, One, p) == multiset(pairs)[p]
    {
      SumForOnes(pairs, p);
    }
    SumAllOnes(pairs);
    forall p | p in pairs
      ensures exists i :: 0 <= i < |pairs| && Self(pairs[i]) == p
    {
      var i :| 0 <= i < |pairs| && pairs[i] == p;
      assert Self(pairs[i]) == p;
    }
  }

  lemma {:induction false} SumForOnes(pairs: seq<Pair>, p: Pair)
    ensures SumFor(pairs, Self, One, p) == multiset(pairs)[p]
  {
    if pairs != [] {
      var init := pairs[..|pairs| - 1];
      SumForOnes(init, p);
      assert pairs == init + [pairs[|pairs| - 1]];
    }
  }

  lemma {:induction false} SumAllOnes(pairs: seq<Pair>)
    ensures SumAll(pairs, One) == |pairs|
  {
    if pairs != [] {
      SumAllOnes(pairs[..|pairs| - 1]);
    }
  }

  // ================================================================ the table

  const StatusTag := StatusOpen + " " + StatusAttr + " ac:schema-version=\"1\">"

  /** The status macro showing `title` in `colour`: it opens as a status macro, holds the colour
      parameter and the title parameter with both values inserted as they are, and closes the
      macro. */
  function BuildStatusMacro(colour: string, title: string): (r: string)
    ensures At(r, 0, StatusTag)
    ensures Contains(r, ParamOpen("colour") + colour + ParamClose)
    ensures Contains(r, ParamOpen("title") + title + ParamClose)
    ensures At(r, |r| - |MacroClose|, MacroClose)
  {
    var cp := ParamOpen("colour") + colour + ParamClose;
    var tp := ParamOpen("title") + title + ParamClose;
    FourPieces(StatusTag, cp, tp, MacroClose);
    StatusTag + cp + tp + MacroClose
  }

  /** Where each of four joined pieces lies. */
  lemma FourPieces(a: string, b: string, c: string, d: string)
    ensures var s := a + b + c + d;
      && At(s, 0, a) && Contains(s, b) && Contains(s, c) && At(s, |s| - |d|, d)
  {
    var s := a + b + c + d;
    assert s[0..|a|] == a;
    assert s[|a|..|a| + |b|] == b;
    assert s[|a| + |b|..|a| + |b| + |c|] == c;
    assert s[|s| - |d|..|s|] == d;
    ContainsAt(s, b, |a|);
    ContainsAt(s, c, |a| + |b|);
  }

  const TableHead := "<table><thead><tr><th>Status</th><th>Occurrences</th></tr></thead><tbody>"
  const TotalsHeading := "<tr><td colspan=\"2\"><strong>Total by Color</strong></td></tr>"
  const TableFoot := "</tbody></table>"

  function Row(macro: string, n: nat): string {
    "<tr><td>" + macro + "</td><td>" + NatToString(n) + "</td></tr>"
  }

  /** The row of one counted pair. */
  function PairRow(e: (Pair, nat)): string {
    Row(BuildStatusMacro(e.0.colour, e.0.title), e.1)
  }

  /** The row of one colour total: the colour is also the text of its macro. */
  function ColourRow(e: (string, nat)): string {
    Row(BuildStatusMacro(e.0, e.0), e.1)
  }

  function ColourOf(e: (Pair, nat)): string {
    e.0.colour
  }

  /** The per-colour totals of the counted pairs, in order of first appearance. */
  function ColourTotals(items: seq<(Pair, nat)>): Tally<string> {
    Accumulate(items, ColourOf, Amount)
  }

  function TableHtml(items: seq<(Pair, nat)>): string {
    var entries := Items(ColourTotals(items));
    TableHead + Rows(PairRow, items, |items|) + TotalsHeading + Rows(ColourRow, entries, |entries|) + TableFoot
  }

  /** `generate_table_html(status_counts)`, given the counter's items. */
  method GenerateTableHtml(items: seq<(Pair, nat)>) returns (html: string)
    ensures html == TableHtml(items)
  {
    html := AppendRows(TableHead, PairRow, items);
    html := html + TotalsHeading;
    var colours, totals := TallyBy(items, ColourOf, Amount);
    html := AppendRows(html, ColourRow, Items(Tally(colours, totals)));
    html := html + TableFoot;
  }

  /** The table as a list of rows: the pair rows, the separator, the colour rows. */
  function TableRows(items: seq<(Pair, nat)>): seq<string> {
    MapSeq(PairRow, items) + [TotalsHeading] + MapSeq(ColourRow, Items(ColourTotals(items)))
  }

  /** The table is its head, its rows and its foot: one row per counted pair in counter order,
      then one separator row, then one row per distinct colour in order of first appearance. */
  lemma TableLayout(items: seq<(Pair, nat)>)
    ensures TableHtml(items) == TableHead + Concat(TableRows(items)) + TableFoot
    ensures |TableRows(items)| == |items| + 1 + |ColourTotals(items).keys|
    ensures forall i :: 0 <= i < |items| ==> TableRows(items)[i] == PairRow(items[i])
    ensures TableRows(items)[|items|] == TotalsHeading
    ensures forall c :: 0 <= c < |ColourTotals(items).keys| ==>
      TableRows(items)[|items| + 1 + c] == ColourRow(Items(ColourTotals(items))[c])
  {
    var entries := Items(ColourTotals(items));
    Sections(TableHead, PairRow, items, TotalsHeading, ColourRow, entries, TableFoot);
    SectionsAt(PairRow, items, TotalsHeading, ColourRow, entries);
  }

  /** The colours of the second section are exactly the colours of the counted pairs, each once,
      and each shows the sum of the counts of the pairs of that colour; so the colour totals add
      up to the pair counts. */
  lemma ColourTotalsSum(items: seq<(Pair, nat)>)
    ensures Distinct(ColourTotals(items).keys)
    ensures forall c :: c in ColourTotals(items).keys <==> exists i :: 0 <= i < |items| && items[i].0.colour == c
    ensures forall c :: c in ColourTotals(items).total ==> ColourTotals(items).total[c] == SumFor(items, ColourOf, Amount, c)
    ensures SumAll(Items(ColourTotals(items)), Amount) == SumAll(items, Amount)
  {
    ColourKeys(items);
    AccumulateTotals(items, ColourOf, Amount);
    ColourSum(items);
  }

  /** The colours of the totals are those of the pairs, each once. */
  lemma ColourKeys(items: seq<(Pair, nat)>)
    ensures Distinct(ColourTotals(items).keys)
    ensures forall c :: c in ColourTotals(items).keys <==> exists i :: 0 <= i < |items| && items[i].0.colour == c
  {
    AccumulateKeys(items, ColourOf, Amount);
    forall c | c in ColourTotals(items).keys
      ensures exists i :: 0 <= i < |items| && items[i].0.colour == c
    {
      var i :| 0 <= i < |items| && ColourOf(items[i]) == c;
    }
    forall i | 0 <= i < |items|
      ensures items[i].0.colour in ColourTotals(items).keys
    {
      assert ColourOf(items[i]) == items[i].0.colour;
    }
  }

  /** The colour rows add up to the same total as the pair rows. */
  lemma ColourSum(items: seq<(Pair, nat)>)
    ensures SumAll(Items(ColourTotals(items)), Amount) == SumAll(items, Amount)
  {
    AccumulateSum(items, ColourOf, Amount);
    ItemsSum(ColourTotals(items));
  }

  // ================================================================ writing the table

  const BeginMarker := "<!- LABEL_TABLE_BEGIN -!>"
  const EndMarker := "<!- LABEL_TABLE_END -!>"

  /** The marker splice of `update_page`: when the text holds both markers, the text up to the end
      of the first begin marker, the table on lines of its own, and the text from the first end
      marker on; otherwise the text followed by a new section holding the markers around the
      table. */
  function SpliceBetween(content: string, table: string, begin: string, end: string): (r: string)
    ensures Contains(r, begin) && Contains(r, end)
  {
    if Contains(content, begin) && Contains(content, end) then
      var b := Find(content, begin, 0, false).value;
      var e := Find(content, end, 0, false).value;
      var mid := "\n" + table + "\n";
      KeptMarkers(content, mid, begin, end, b, e);
      content[..b + |begin|] + mid + content[e..]
    else
      AppendedMarkers(content, table, begin, end);
      content + ("\n" + begin + "\n" + table + "\n" + end + "\n")
  }

  function Splice(content: string, table: string): string {
    SpliceBetween(content, table, BeginMarker, EndMarker)
  }

  /** With both markers present, the text up to the end of the begin marker and the text from the
      end marker on are kept, and exactly the table on a line of its own lies between them. */
  lemma SpliceBoth(content: string, table: string, begin: string, end: string, b: nat, e: nat)
    requires Find(content, begin, 0, false) == Some(b) && Find(content, end, 0, false) == Some(e)
    ensures var r := SpliceBetween(content, table, begin, end);
      var m := b + |begin|;
      && r[..m] == content[..m]
      && r[m..m + |table| + 2] == "\n" + table + "\n"
      && r[m + |table| + 2..] == content[e..]
  {
  }

  /** With a marker missing, the old text is kept whole and is followed by the begin marker, the
      table and the end marker, each on a line of its own. */
  lemma SpliceAppend(content: string, table: string, begin: string, end: string)
    requires !Contains(content, begin) || !Contains(content, end)
    ensures var r := SpliceBetween(content, table, begin, end);
      && content <= r
      && r[|content|..] == "\n" + begin + "\n" + table + "\n" + end + "\n"
  {
  }

  /** The kept text around a replaced table still holds both markers. */
  lemma {:induction false} KeptMarkers(content: string, mid: string, begin: string, end: string, b: nat, e: nat)
    requires At(content, b, begin) && At(content, e, end)
    ensures var r := content[..b + |begin|] + mid + content[e..];
      Contains(r, begin) && Contains(r, end)
  {
    var m := b + |begin|;
    var r := content[..m] + mid + content[e..];
    PartsOfThree(content[..m], mid, content[e..]);
    MarkersAround(r, content, m, m + |mid|, b, e, begin, end);
  }

  /** A text that keeps the first `m` characters of `c` and, from `k` on, the part of `c` from `e`
      on, holds a pattern placed within that prefix and one placed at `e`. */
  lemma {:induction false} MarkersAround(r: string, c: string, m: nat, k: nat, b: nat, e: nat, p: string, q: string)
    requires m <= k <= |r| && m <= |c| && e <= |c|
    requires r[..m] == c[..m] && r[k..] == c[e..]
    requires b + |p| <= m && At(c, b, p) && At(c, e, q)
    ensures Contains(r, p) && Contains(r, q)
  {
    AtKeptPrefix(r, c, m, b, p);
    ContainsAt(r, p, b);
    AtKeptSuffix(r, c, k, e, q);
    ContainsAt(r, q, k);
  }

  lemma PartsOfThree(p: string, mid: string, q: string)
    ensures (p + mid + q)[..|p|] == p && (p + mid + q)[|p| + |mid|..] == q
  {
  }

  /** A new section appended after the text holds both markers. */
  lemma {:induction false} AppendedMarkers(content: string, table: string, begin: string, end: string)
    ensures var r := content + ("\n" + begin + "\n" + table + "\n" + end + "\n");
      Contains(r, begin) && Contains(r, end)
  {
    var r := content + ("\n" + begin + "\n" + table + "\n" + end + "\n");
    var head := content + "\n";
    var mid := "\n" + table + "\n";
    assert r == head + begin + (mid + end + "\n");
    AtPlaced(head, begin, mid + end + "\n");
    ContainsAt(r, begin, |head|);
    assert r == (head + begin + mid) + end + "\n";
    AtPlaced(head + begin + mid, end, "\n");
    ContainsAt(r, end, |head + begin + mid|);
  }

  /** Splicing a second table into a spliced text gives what splicing it into the original text
      gives: the second table replaces the first and nothing else changes. This holds when the
      text had the begin marker before the end marker, or neither marker, and the first table
      does not itself hold the end marker. */
  lemma Resplice(content: string, table1: string, table2: string, begin: string, end: string)
    requires '\n' !in begin && '\n' !in end && end != [] && !Contains(begin, end)
    requires !Contains(table1, end)
    requires || (!Contains(content, begin) && !Contains(content, end))
             || (Contains(content, begin) && Contains(content, end)
                 && Find(content, begin, 0, false).value + |begin| <= Find(content, end, 0, false).value)
    ensures SpliceBetween(SpliceBetween(content, table1, begin, end), table2, begin, end)
         == SpliceBetween(content, table2, begin, end)
  {
    if Contains(content, begin) && Contains(content, end) {
      ResplicePresent(content, table1, table2, begin, end,
                      Find(content, begin, 0, false).value, Find(content, end, 0, false).value);
    } else {
      RespliceAppended(content, table1, table2, begin, end);
    }
  }

  lemma ResplicePresent(content: string, table1: string, table2: string, begin: string, end: string, b: nat, e: nat)
    requires '\n' !in end && end != [] && !Contains(table1, end)
    requires Find(content, begin, 0, false) == Some(b) && Find(content, end, 0, false) == Some(e)
    requires b + |begin| <= e
    ensures SpliceBetween(SpliceBetween(content, table1, begin, end), table2, begin, end)
         == SpliceBetween(content, table2, begin, end)
  {
    var m := b + |begin|;
    SpliceFound(content, table1, begin, end, b, e);
    SpliceFound(content, table2, begin, end, b, e);
    FindInPrefix(content, begin, b, m);
    NotInPrefix(content, end, e, m);
    EndMarkerStarts(content, end, e);
    SpliceKept(content[..m], table1, table2, content[e..], begin, end, b);
  }

  /** Splicing into a text whose markers frame a table puts the new table in place of the old. */
  lemma SpliceKept(pre: string, table1: string, table2: string, post: string, begin: string, end: string, b: nat)
    requires '\n' !in end && !Contains(table1, end) && b + |begin| == |pre|
    requires Find(pre, begin, 0, false) == Some(b) && !Contains(pre, end) && Find(post, end, 0, false) == Some(0)
    ensures SpliceBetween(pre + "\n" + table1 + "\n" + post, table2, begin, end) == pre + "\n" + table2 + "\n" + post
  {
    KeptFinds(pre, table1, post, begin, end, b);
    Framed(pre, table1, post);
    SplicePlaced(pre + "\n" + table1 + "\n" + post, table2, begin, end, b, |pre| + 1 + |table1| + 1, pre, post);
  }

  /** The splice of a text whose first markers are at known places, with what lies before and
      after them. */
  lemma SplicePlaced(content: string, table: string, begin: string, end: string, b: nat, e: nat, pre: string, post: string)
    requires Find(content, begin, 0, false) == Some(b) && Find(content, end, 0, false) == Some(e)
    requires content[..b + |begin|] == pre && content[e..] == post
    ensures SpliceBetween(content, table, begin, end) == pre + "\n" + table + "\n" + post
  {
  }

  /** The text before and after a line put between two texts. */
  lemma Framed(pre: string, mid: string, post: string)
    ensures var s := pre + "\n" + mid + "\n" + post;
      s[..|pre|] == pre && s[|pre| + 1 + |mid| + 1..] == post
  {
  }

  /** Where the markers of a spliced text are, when they were in place before. */
  lemma KeptFinds(pre: string, table: string, post: string, begin: string, end: string, b: nat)
    requires '\n' !in end && !Contains(table, end)
    requires Find(pre, begin, 0, false) == Some(b) && !Contains(pre, end) && Find(post, end, 0, false) == Some(0)
    ensures var s := pre + "\n" + table + "\n" + post;
      && Find(s, begin, 0, false) == Some(b)
      && Find(s, end, 0, false) == Some(|pre| + 1 + |table| + 1)
  {
    KeptBegin(pre, table, post, begin, b);
    KeptEnd(pre, table, post, end);
  }

  lemma KeptBegin(pre: string, table: string, post: string, begin: string, b: nat)
    requires Find(pre, begin, 0, false) == Some(b)
    ensures Find(pre + "\n" + table + "\n" + post, begin, 0, false) == Some(b)
  {
    FindExtend(pre, "\n", begin, b);
    FindExtend(pre + "\n", table, begin, b);
    FindExtend(pre + "\n" + table, "\n", begin, b);
    FindExtend(pre + "\n" + table + "\n", post, begin, b);
  }

  lemma KeptEnd(pre: string, table: string, post: string, end: string)
    requires '\n' !in end && !Contains(table, end) && !Contains(pre, end) && Find(post, end, 0, false) == Some(0)
    ensures Find(pre + "\n" + table + "\n" + post, end, 0, false) == Some(|pre| + 1 + |table| + 1)
  {
    NoneAcrossNewline(pre, table, end);
    FindAfterNewline(pre + "\n" + table, post, end);
  }

  /** Where the markers of a text with an appended section are. */
  lemma AppendedFinds(content: string, table: string, begin: string, end: string)
    requires '\n' !in begin && '\n' !in end && !Contains(begin, end) && !Contains(table, end)
    requires !Contains(content, begin) && !Contains(content, end)
    ensures var s := content + "\n" + begin + "\n" + table + "\n" + end + "\n";
      && Find(s, begin, 0, false) == Some(|content| + 1)
      && Find(s, end, 0, false) == Some(|content| + 1 + |begin| + 1 + |table| + 1)
  {
    AppendedBegin(content, table, begin, end);
    AppendedEnd(content, table, begin, end);
  }

  lemma AppendedBegin(content: string, table: string, begin: string, end: string)
    requires '\n' !in begin && !Contains(content, begin)
    ensures Find(content + "\n" + begin + "\n" + table + "\n" + end + "\n", begin, 0, false) == Some(|content| + 1)
  {
    var b := |content| + 1;
    FindSelf(begin);
    FindAfterNewline(content, begin, begin);
    FindExtend(content + "\n" + begin, "\n", begin, b);
    FindExtend(content + "\n" + begin + "\n", table, begin, b);
    FindExtend(content + "\n" + begin + "\n" + table, "\n", begin, b);
    FindExtend(content + "\n" + begin + "\n" + table + "\n", end, begin, b);
    FindExtend(content + "\n" + begin + "\n" + table + "\n" + end, "\n", begin, b);
  }

  lemma AppendedEnd(content: string, table: string, begin: string, end: string)
    requires '\n' !in end && !Contains(begin, end) && !Contains(table, end) && !Contains(content, end)
    ensures Find(content + "\n" + begin + "\n" + table + "\n" + end + "\n", end, 0, false)
         == Some(|content| + 1 + |begin| + 1 + |table| + 1)
  {
    NoneBeforeEnd(content, table, begin, end);
    FindPlacedAfterNewline(content + "\n" + begin + "\n" + table, end, "\n");
  }

  lemma NoneBeforeEnd(content: string, table: string, begin: string, end: string)
    requires '\n' !in end && !Contains(begin, end) && !Contains(table, end) && !Contains(content, end)
    ensures !Contains(content + "\n" + begin + "\n" + table, end)
  {
    NoneAcrossNewline(content, begin, end);
    NoneAcrossNewline(content + "\n" + begin, table, end);
  }

  /** Splicing into a text with an appended section puts the new table in place of the old. */
  lemma SpliceAppended(content: string, table1: string, table2: string, begin: string, end: string)
    requires '\n' !in begin && '\n' !in end && !Contains(begin, end) && !Contains(table1, end)
    requires !Contains(content, begin) && !Contains(content, end)
    ensures SpliceBetween(content + "\n" + begin + "\n" + table1 + "\n" + end + "\n", table2, begin, end)
         == content + "\n" + begin + "\n" + table2 + "\n" + end + "\n"
  {
    var pre, post := content + "\n" + begin, end + "\n";
    var s := content + "\n" + begin + "\n" + table1 + "\n" + end + "\n";
    AppendedFinds(content, table1, begin, end);
    Associative(pre + "\n" + table1 + "\n", end, "\n");
    Framed(pre, table1, post);
    SplicePlaced(s, table2, begin, end, |content| + 1, |pre| + 1 + |table1| + 1, pre, post);
    Associative(pre + "\n" + table2 + "\n", end, "\n");
  }

  /** The text from the first match on starts with the match. */
  lemma EndMarkerStarts(content: string, end: string, e: nat)
    requires Find(content, end, 0, false) == Some(e)
    ensures Find(content[e..], end, 0, false) == Some(0)
  {
    assert MatchAt(content, e, end, false);
    assert content[e..][0..|end|] == content[e..e + |end|];
    FindAt(content[e..], end, 0, 0, false);
  }

  lemma SpliceFound(content: string, table: string, begin: string, end: string, b: nat, e: nat)
    requires Find(content, begin, 0, false) == Some(b) && Find(content, end, 0, false) == Some(e)
    ensures SpliceBetween(content, table, begin, end) == content[..b + |begin|] + "\n" + table + "\n" + content[e..]
  {
  }

  lemma SpliceMissing(content: string, table: string, begin: string, end: string)
    requires !Contains(content, begin) || !Contains(content, end)
    ensures SpliceBetween(content, table, begin, end) == content + "\n" + begin + "\n" + table + "\n" + end + "\n"
  {
  }

  lemma RespliceAppended(content: string, table1: string, table2: string, begin: string, end: string)
    requires '\n' !in begin && '\n' !in end && !Contains(begin, end) && !Contains(table1, end)
    requires !Contains(content, begin) && !Contains(content, end)
    ensures SpliceBetween(SpliceBetween(content, table1, begin, end), table2, begin, end)
         == SpliceBetween(content, table2, begin, end)
  {
    SpliceMissing(content, table1, begin, end);
    SpliceMissing(content, table2, begin, end);
    SpliceAppended(content, table1, table2, begin, end);
  }

  /** The page's markers: neither spans a line, and the end marker is not part of the begin
      marker. */
  lemma MarkersApart()
    ensures '\n' !in BeginMarker && '\n' !in EndMarker && EndMarker != []
    ensures !Contains(BeginMarker, EndMarker)
  {
    var b, e := BeginMarker, EndMarker;
    assert |b| == 25 && |e| == 23;
    forall j | 0 <= j < 3
      ensures !At(b, j, e)
    {
      assert b[j..j + 23][16 - j] == b[16];
      assert b[16] == 'B' && e[16 - j] != 'B';
    }
    FindSkip(b, e, 0, 3);
  }

  /** `update_page` run twice writes the second table where the first one was: the first run
      either found the markers in order or added them, and the first table does not hold the end
      marker. */
  lemma ReplaceTable(content: string, table1: string, table2: string)
    requires !Contains(table1, EndMarker)
    requires || (!Contains(content, BeginMarker) && !Contains(content, EndMarker))
             || (Contains(content, BeginMarker) && Contains(content, EndMarker)
                 && Find(content, BeginMarker, 0, false).value + |BeginMarker| <= Find(content, EndMarker, 0, false).value)
    ensures Splice(Splice(content, table1), table2) == Splice(content, table2)
  {
    MarkersApart();
    Resplice(content, table1, table2, BeginMarker, EndMarker);
  }

  // ================================================================ the run

  /** The write `update_page` sends: the new body and the new version number. */
  datatype Update = Update(content: string, version: int)

  /** `update_page(table)` given the body and version number it fetches: the table is spliced in
      and the version number goes up by one. */
  function UpdatePage(current: string, version: int, table: string): (u: Update)
    ensures u.version == version + 1
    ensures Contains(u.content, BeginMarker) && Contains(u.content, EndMarker)
  {
    Update(Splice(current, table), version + 1)
  }

  /** The table `main` builds for a page body. */
  function StatusTable(page: string): string {
    TableHtml(Items(Counter(Pairs(page))))
  }

  /** `main`: `page` is the body of the first fetch, `current` and `version` those of the fetch
      `update_page` makes. A page without status macros gives no write. */
  method CountStatuses(page: string, current: string, version: int) returns (r: Option<Update>)
    ensures r.None? <==> Blocks(page) == []
    ensures r.Some? ==> r.value == UpdatePage(current, version, StatusTable(page))
  {
    var pairs := ExtractColorTitlePairs(page);
    PairsPerBlock(page);
    if pairs == [] {
      return None;
    }
    var counts := Counter(pairs);
    var table := GenerateTableHtml(Items(counts));
    r := Some(UpdatePage(current, version, table));
  }

  /** Both sections of the table account for every status macro of the page exactly once: the
      pair counts add up to the number of macros, and so do the colour totals. */
  lemma StatusTableTotals(page: string)
    ensures var items := Items(Counter(Pairs(page)));
      && SumAll(items, Amount) == |Blocks(page)|
      && SumAll(Items(ColourTotals(items)), Amount) == |Blocks(page)|
  {
    var pairs := Pairs(page);
    PairsPerBlock(page);
    CounterCounts(pairs);
    ItemsSum(Counter(pairs));
    ColourTotalsSum(Items(Counter(pairs)));
  }
}
