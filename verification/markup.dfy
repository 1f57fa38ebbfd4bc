/** Hand-written scanners for the regular expressions the decision scripts and the status counter
    apply. Each follows Python `re` for its one pattern: the search is leftmost, `findall` and `sub`
    go left to right over non-overlapping matches, and the greedy or lazy choices below are the
    ones the backtracking engine settles on for that pattern. */
module Markup {
  import opened Text

  // ================================================================ `\[\[([^\]]+)\]\]`

  /** The length of the name in an owner-markup match `[[name]]` at the start of `s`. */
  function OwnerMatch(s: string): (r: Option<nat>)
    ensures r.Some? ==> 1 <= r.value && r.value + 4 <= |s|
  {
    if 2 <= |s| && s[0] == '[' && s[1] == '[' then
      var j := NextIndex(s, ']', 2);
      if 2 < j && j + 2 <= |s| && s[j + 1] == ']' then Some(j - 2) else None
    else None
  }

  /** A markdown text cut into the characters owner markup leaves alone and the `[[name]]`
      tokens it matches. */
  datatype Piece = Plain(c: char) | Owner(name: string)

  /** The text one piece stands for. */
  function PieceText(p: Piece): string {
    match p
    case Plain(c) => [c]
    case Owner(n) => "[[" + n + "]]"
  }

  /** The text a list of pieces stands for. */
  function Show(ps: seq<Piece>): string {
    if ps == [] then "" else PieceText(ps[0]) + Show(ps[1..])
  }

  /** The names of the `Owner` pieces, in order. */
  function Names(ps: seq<Piece>): seq<string> {
    if ps == [] then [] else (if ps[0].Owner? then [ps[0].name] else []) + Names(ps[1..])
  }

  /** The `Plain` characters, in order. */
  function PlainText(ps: seq<Piece>): string {
    if ps == [] then "" else (if ps[0].Plain? then [ps[0].c] else []) + PlainText(ps[1..])
  }

  /** The length of the token the owner scan takes at the start of `s`: the whole `[[name]]`
      when the pattern matches there, one character when it does not. */
  function TokenLength(s: string): (k: nat)
    requires s != []
    ensures 1 <= k <= |s|
  {
    if OwnerMatch(s).Some? then OwnerMatch(s).value + 4 else 1
  }

  /** The piece the owner scan takes at the start of `s`. */
  function HeadPiece(s: string): Piece
    requires s != []
  {
    if OwnerMatch(s).Some? then Owner(s[2..OwnerMatch(s).value + 2]) else Plain(s[0])
  }

  /** The left-to-right scan `re.findall` and `re.sub` make with the owner pattern. */
  function OwnerPieces(s: string): seq<Piece>
    decreases |s|
  {
    if s == [] then [] else [HeadPiece(s)] + OwnerPieces(s[TokenLength(s)..])
  }

  /** `re.findall(r'\[\[([^\]]+)\]\]', s)`. */
  function OwnerNames(s: string): seq<string>
    decreases |s|
  {
    if s == [] then []
    else (if HeadPiece(s).Owner? then [HeadPiece(s).name] else []) + OwnerNames(s[TokenLength(s)..])
  }

  /** `re.sub(r'\[\[[^\]]+\]\]', '', s)`. */
  function RemoveOwnerMarkup(s: string): string
    decreases |s|
  {
    if s == [] then []
    else (if HeadPiece(s).Plain? then [s[0]] else []) + RemoveOwnerMarkup(s[TokenLength(s)..])
  }

  /** A text the owner scan matches at its start is `[[name]]` followed by the rest. */
  lemma OwnerMatchSplit(s: string, n: nat)
    requires OwnerMatch(s) == Some(n)
    ensures s == "[[" + s[2..n + 2] + "]]" + s[n + 4..]
  {
    assert s[..2] + s[2..n + 2] + s[n + 2..n + 4] + s[n + 4..] == s;
  }

  /** The piece the scan takes stands for the token it takes, and an owner name is a non-empty
      run without `]`. */
  lemma HeadToken(s: string)
    requires s != []
    ensures PieceText(HeadPiece(s)) == s[..TokenLength(s)]
    ensures HeadPiece(s).Owner? ==> HeadPiece(s).name != [] && ']' !in HeadPiece(s).name
  {
    if OwnerMatch(s).Some? {
      var n := OwnerMatch(s).value;
      OwnerMatchSplit(s, n);
      assert s[..n + 4] == "[[" + s[2..n + 2] + "]]";
      OwnerNameRun(s, n);
    }
  }

  /** The name of an owner match holds no `]`. */
  lemma OwnerNameRun(s: string, n: nat)
    requires OwnerMatch(s) == Some(n)
    ensures ']' !in s[2..n + 2]
  {
    var name := s[2..n + 2];
    assert NextIndex(s, ']', 2) == n + 2;
    assert forall k :: 0 <= k < n ==> name[k] == s[k + 2];
  }

  /** One piece more in front is its text in front. */
  lemma ShowCons(p: Piece, rest: seq<Piece>)
    ensures Show([p] + rest) == PieceText(p) + Show(rest)
  {
    assert ([p] + rest)[0] == p && ([p] + rest)[1..] == rest;
  }

  /** One piece more in front adds its name or its character in front. */
  lemma PiecesCons(p: Piece, rest: seq<Piece>)
    ensures Names([p] + rest) == (if p.Owner? then [p.name] else []) + Names(rest)
    ensures PlainText([p] + rest) == (if p.Plain? then [p.c] else []) + PlainText(rest)
  {
    assert ([p] + rest)[0] == p && ([p] + rest)[1..] == rest;
  }

  /** The pieces put back together give the text they were cut from. */
  lemma {:induction false} OwnerPiecesShow(s: string)
    ensures Show(OwnerPieces(s)) == s
    decreases |s|
  {
    if s != [] {
      var k := TokenLength(s);
      OwnerPiecesShow(s[k..]);
      HeadToken(s);
      ShowPieces(s, k, HeadPiece(s), OwnerPieces(s[k..]));
    }
  }

  /** A piece showing the first `k` characters followed by pieces showing the rest show the
      whole text. */
  lemma ShowPieces(s: string, k: nat, p: Piece, rest: seq<Piece>)
    requires k <= |s| && PieceText(p) == s[..k] && Show(rest) == s[k..]
    ensures Show([p] + rest) == s
  {
    ShowCons(p, rest);
    assert s[..k] + s[k..] == s;
  }

  /** `findall` and `sub` make the same cut: the names are those of the owner pieces, the text
      left behind is the plain pieces, and each name is a non-empty run without `]`. */
  lemma {:induction false} OwnerScansAgree(s: string)
    ensures OwnerNames(s) == Names(OwnerPieces(s))
    ensures RemoveOwnerMarkup(s) == PlainText(OwnerPieces(s))
    ensures forall n :: n in OwnerNames(s) ==> n != [] && ']' !in n
    decreases |s|
  {
    if s != [] {
      var p, rest := HeadPiece(s), s[TokenLength(s)..];
      OwnerScansAgree(rest);
      PiecesCons(p, OwnerPieces(rest));
      HeadToken(s);
    }
  }

  /** The total length of `[[name]]` for each name. */
  function MarkupLength(names: seq<string>): nat {
    if names == [] then 0 else |names[0]| + 4 + MarkupLength(names[1..])
  }

  lemma {:induction false} ShowLength(ps: seq<Piece>)
    ensures |Show(ps)| == |PlainText(ps)| + MarkupLength(Names(ps))
  {
    if ps != [] {
      ShowLength(ps[1..]);
      var rest := Names(ps[1..]);
      match ps[0]
      case Plain(c) =>
        assert Names(ps) == rest;
      case Owner(n) =>
        assert Names(ps) == [n] + rest;
        assert ([n] + rest)[1..] == rest;
    }
  }

  /** Removing owner markup deletes exactly the `[[name]]` text of the names `findall` reports:
      the two scans cut the text at the same places. */
  lemma OwnerMarkupAccounting(s: string)
    ensures |RemoveOwnerMarkup(s)| + MarkupLength(OwnerNames(s)) == |s|
  {
    OwnerPiecesShow(s);
    OwnerScansAgree(s);
    ShowLength(OwnerPieces(s));
  }

  /** Text without `[` holds no owner markup and loses nothing to its removal. */
  lemma {:induction false} NoOwnerMarkup(s: string)
    requires '[' !in s
    ensures OwnerNames(s) == [] && RemoveOwnerMarkup(s) == s
  {
    if s != [] {
      NoOwnerMarkup(s[1..]);
      assert [s[0]] + s[1..] == s;
    }
  }

  /** Where the name `[[name` is followed by `]` and `tail`: the scan at the start of the text
      matches exactly when `tail` begins with the second `]`. */
  lemma NameThenBracket(name: string, tail: string)
    requires name != [] && ']' !in name
    ensures OwnerMatch("[[" + name + "]" + tail) == if tail != [] && tail[0] == ']' then Some(|name|) else None
  {
    var s := "[[" + name + "]" + tail;
    forall k | 2 <= k < |name| + 2
      ensures s[k] != ']'
    {
      assert s[k] == name[k - 2];
    }
    assert s[|name| + 2] == ']';
    assert NextIndex(s, ']', 2) == |name| + 2;
    if tail != [] {
      assert s[|name| + 3] == tail[0];
    }
  }

  /** A single owner token is reported by name and removed whole. */
  lemma OwnerToken(name: string)
    requires name != [] && ']' !in name
    ensures OwnerNames("[[" + name + "]]") == [name]
    ensures RemoveOwnerMarkup("[[" + name + "]]") == ""
  {
    var s := "[[" + name + "]]";
    NameThenBracket(name, "]");
    assert "[[" + name + "]" + "]" == s;
    assert s[2..|name| + 2] == name;
    assert s[|name| + 4..] == [];
  }

  /** Where the scan finds no owner token at `k`, it keeps the character there. */
  lemma RemoveKeepsAt(s: string, k: nat)
    requires k < |s| && OwnerMatch(s[k..]) == None
    ensures RemoveOwnerMarkup(s[k..]) == [s[k]] + RemoveOwnerMarkup(s[k + 1..])
  {
    DropTwice(s, k, 1);
  }

  /** Where the scan finds an owner token at `k`, it drops it and goes on after it. */
  lemma RemoveDropsAt(s: string, k: nat, n: nat)
    requires k < |s| && OwnerMatch(s[k..]) == Some(n)
    ensures k + n + 4 <= |s| && RemoveOwnerMarkup(s[k..]) == RemoveOwnerMarkup(s[k + n + 4..])
  {
    RemoveDropsToken(s[k..], n);
    DropTwice(s, k, n + 4);
  }

  /** The token the scan takes where the owner pattern matches is the owner piece. */
  lemma TokenAt(t: string, n: nat)
    requires t != [] && OwnerMatch(t) == Some(n)
    ensures TokenLength(t) == n + 4 && HeadPiece(t).Owner?
  {
  }

  /** One step of the removal scan. */
  lemma RemoveUnfold(t: string)
    requires t != []
    ensures HeadPiece(t).Owner? ==> RemoveOwnerMarkup(t) == RemoveOwnerMarkup(t[TokenLength(t)..])
    ensures HeadPiece(t).Plain? ==> RemoveOwnerMarkup(t) == [t[0]] + RemoveOwnerMarkup(t[TokenLength(t)..])
  {
  }

  /** An owner token at the start is dropped whole. */
  lemma RemoveDropsToken(t: string, n: nat)
    requires OwnerMatch(t) == Some(n)
    ensures RemoveOwnerMarkup(t) == RemoveOwnerMarkup(t[n + 4..])
  {
    TokenAt(t, n);
    RemoveUnfold(t);
  }

  /** A run without `[` passes through the removal scan unchanged. */
  lemma {:induction false} RemovePlainRun(s: string, k: nat, e: nat)
    requires k <= e <= |s|
    requires forall j :: k <= j < e ==> s[j] != '['
    ensures RemoveOwnerMarkup(s[k..]) == s[k..e] + RemoveOwnerMarkup(s[e..])
    decreases e - k
  {
    if k < e {
      RemoveKeepsAt(s, k);
      RemovePlainRun(s, k + 1, e);
      SliceCons(s, k, e, RemoveOwnerMarkup(s[e..]));
    }
  }

  /** The owner token the scan meets at `k` when `[[` is followed there by a name and `]]`. */
  lemma OwnerMatchAt(s: string, k: nat, n: nat)
    requires n >= 1 && k + n + 4 <= |s|
    requires s[k] == '[' && s[k + 1] == '[' && s[k + n + 2] == ']' && s[k + n + 3] == ']'
    requires forall j :: k + 2 <= j < k + n + 2 ==> s[j] != ']'
    ensures OwnerMatch(s[k..]) == Some(n)
  {
    var t := s[k..];
    assert forall j :: 2 <= j < n + 2 ==> t[j] == s[k + j];
    assert NextIndex(t, ']', 2) == n + 2;
  }

  /** No owner token starts at `k` unless `[[` does. */
  lemma NoOwnerAt(s: string, k: nat)
    requires k < |s| && (s[k] != '[' || k + 1 == |s| || s[k + 1] != '[')
    ensures OwnerMatch(s[k..]) == None
  {
  }

  /** The tail `][[y]]]` of the text below loses `[[y]]` and keeps both `]`. */
  lemma RemovalScanTail(s: string, m: nat, ny: nat)
    requires ny >= 1 && |s| == m + ny + 6
    requires s[m] == ']' && s[m + 1] == '[' && s[m + 2] == '['
    requires s[m + ny + 3] == ']' && s[m + ny + 4] == ']' && s[m + ny + 5] == ']'
    requires forall j :: m + 3 <= j < m + ny + 3 ==> s[j] != ']'
    ensures RemoveOwnerMarkup(s[m..]) == "]]"
  {
    var e := m + ny + 5;
    NoOwnerAt(s, e);
    RemoveKeepsAt(s, e);
    assert s[e + 1..] == [];
    OwnerMatchAt(s, m + 1, ny);
    RemoveDropsAt(s, m + 1, ny);
    NoOwnerAt(s, m);
    RemoveKeepsAt(s, m);
  }

  /** The removal scan over `[[x][[y]]]`, by position: `m` is where `x` ends and `ny` is the
      length of `y`. */
  lemma RemovalScan(s: string, m: nat, ny: nat)
    requires m >= 3 && ny >= 1 && |s| == m + ny + 6
    requires s[0] == '[' && s[1] == '['
    requires s[m] == ']' && s[m + 1] == '[' && s[m + 2] == '['
    requires s[m + ny + 3] == ']' && s[m + ny + 4] == ']' && s[m + ny + 5] == ']'
    requires forall j :: 2 <= j < m ==> s[j] != '[' && s[j] != ']'
    requires forall j :: m + 3 <= j < m + ny + 3 ==> s[j] != ']'
    ensures RemoveOwnerMarkup(s) == "[[" + s[2..m] + "]]"
  {
    RemovalScanTail(s, m, ny);
    RemovePlainRun(s, 2, m);
    NoOwnerAt(s, 1);
    RemoveKeepsAt(s, 1);
    NoCloseAfterName(s, m);
    RemoveKeepsAt(s, 0);
    assert s[0..] == s;
    BracketsAround(s[0], s[1], s[2..m], RemoveOwnerMarkup(s[m..]));
  }

  /** `[[` followed by a run without `]` and a single `]` is no owner token. */
  lemma NoCloseAfterName(s: string, m: nat)
    requires m >= 3 && m + 1 < |s| && s[0] == '[' && s[1] == '['
    requires forall j :: 2 <= j < m ==> s[j] != ']'
    requires s[m] == ']' && s[m + 1] != ']'
    ensures OwnerMatch(s[0..]) == None
  {
    NextIndexAt(s, ']', 2, m);
    assert s[0..] == s;
  }

  /** Two `[` in front of a name and of `]]` make the owner token of that name. */
  lemma BracketsAround(c0: char, c1: char, x: string, tail: string)
    requires c0 == '[' && c1 == '[' && tail == "]]"
    ensures [c0] + ([c1] + (x + tail)) == "[[" + x + "]]"
  {
    assert [c0] + [c1] == "[[";
  }

  /** One removal pass can leave owner markup behind: in `[[x][[y]]]` the match is `[[y]]`,
      and cutting it out joins `[[x]` and `]` into a new token `[[x]]`. */
  lemma RemovalCanLeaveMarkup(x: string, y: string)
    requires x != [] && '[' !in x && ']' !in x
    requires y != [] && ']' !in y
    ensures RemoveOwnerMarkup("[[" + x + "][[" + y + "]]]") == "[[" + x + "]]"
    ensures OwnerNames("[[" + x + "]]") == [x]
  {
    var s := "[[" + x + "][[" + y + "]]]";
    var m := |x| + 2;
    assert s[2..m] == x;
    assert s[m + 3..m + 3 + |y|] == y;
    assert forall j :: 2 <= j < m ==> s[j] == x[j - 2];
    assert forall j :: m + 3 <= j < m + |y| + 3 ==> s[j] == y[j - m - 3];
    RemovalScan(s, m, |y|);
    OwnerToken(x);
  }

  // ================================================================ `MARKER\s*([^\n]+)`

  /** The first index at or after `from` whose character is not a newline, or `|s|`. */
  function NextNonNewline(s: string, from: nat): (k: nat)
    requires from <= |s|
    ensures from <= k <= |s| && (k < |s| ==> s[k] != '\n')
    ensures forall j :: from <= j < k ==> s[j] == '\n'
    decreases |s| - from
  {
    if from == |s| || s[from] != '\n' then from else NextNonNewline(s, from + 1)
  }

  /** `re.search(MARKER + r'\s*([^\n]+)', s)` with the group `.strip()`ped, or `None` when the
      search fails. Only the first occurrence of the marker can match: the greedy `\s*` may cross
      line ends, and when it runs to the end of `s` the engine backs off to a single trailing
      whitespace character, which strips to the empty string. */
  function FieldValue(s: string, marker: string): (r: Option<string>)
    requires marker != []
    ensures r.Some? ==> Trimmed(r.value) && '\n' !in r.value
    ensures r.Some? ==> Find(s, marker, 0, false).Some?
  {
    match Find(s, marker, 0, false)
    case None => None
    case Some(i) => ValueAfter(s, i + |marker|)
  }

  /** The `\s*([^\n]+)` part of a field line whose marker ends at `b`. */
  function ValueAfter(s: string, b: nat): (r: Option<string>)
    requires b <= |s|
    ensures r.Some? ==> Trimmed(r.value) && '\n' !in r.value
  {
    var p := SkipSpace(s, b);
    if p < |s| then
      var line := s[p..NextIndex(s, '\n', p)];
      StripKeeps(line);
      Some(Strip(line))
    else if NextNonNewline(s, b) < |s| then Some("")
    else None
  }

  lemma ValueAfterSpace(s: string, b: nat, v: string)
    requires b + |v| + 2 <= |s| && v != [] && Trimmed(v) && '\n' !in v
    requires s[b] == ' ' && s[b + 1..b + 1 + |v|] == v && s[b + 1 + |v|] == '\n'
    ensures ValueAfter(s, b) == Some(v)
  {
    assert s[b + 1] == v[0];
    assert SkipSpace(s, b) == b + 1;
    forall k | b + 1 <= k < b + 1 + |v|
      ensures s[k] != '\n'
    {
      assert s[k] == v[k - b - 1];
    }
    assert NextIndex(s, '\n', b + 1) == b + 1 + |v|;
    StripTrimmed(v);
  }

  /** When the marker's first character appears nowhere before `i`, the field value is read
      after the marker at `i`. */
  lemma FieldValueAt(s: string, marker: string, i: nat)
    requires marker != [] && At(s, i, marker)
    requires forall j :: 0 <= j < i ==> s[j] != marker[0]
    ensures FieldValue(s, marker) == ValueAfter(s, i + |marker|)
  {
    FindFirst(s, marker, i);
    FieldValueHit(s, marker, i);
  }

  /** The value of the first marker found. */
  lemma FieldValueHit(s: string, marker: string, i: nat)
    requires marker != [] && Find(s, marker, 0, false) == Some(i)
    ensures FieldValue(s, marker) == ValueAfter(s, i + |marker|)
  {
  }

  /** A field line whose marker is the first in `s` and is followed by a space and a value
      ending its line yields that value. */
  lemma FieldValueIn(s: string, marker: string, i: nat, v: string)
    requires marker != [] && At(s, i, marker)
    requires forall j :: 0 <= j < i ==> s[j] != marker[0]
    requires v != [] && Trimmed(v) && '\n' !in v
    requires i + |marker| + |v| + 2 <= |s| && s[i + |marker|] == ' '
    requires s[i + |marker| + 1..i + |marker| + 1 + |v|] == v && s[i + |marker| + 1 + |v|] == '\n'
    ensures FieldValue(s, marker) == Some(v)
  {
    var b := i + |marker|;
    ValueAfterSpace(s, b, v);
    FieldValueAt(s, marker, i);
  }

  /** A marker followed by a space and a value on the rest of its line yields that value. */
  lemma FieldValueAfterMarker(pre: string, marker: string, v: string, post: string)
    requires marker != [] && marker[0] !in pre
    requires v != [] && Trimmed(v) && '\n' !in v
    ensures FieldValue(pre + marker + " " + v + "\n" + post, marker) == Some(v)
  {
    var s := pre + marker + " " + v + "\n" + post;
    var b := |pre| + |marker|;
    assert s[|pre|..b] == marker;
    assert s[b + 1..b + 1 + |v|] == v;
    assert forall j :: 0 <= j < |pre| ==> s[j] == pre[j];
    FieldValueIn(s, marker, |pre|, v);
  }

  // ================================================================ `\b(W1|W2|...)\b`, IGNORECASE

  /** The `\w` class, ASCII part. */
  predicate IsWordChar(c: char) {
    ('a' <= c <= 'z') || ('A' <= c <= 'Z') || ('0' <= c <= '9') || c == '_'
  }

  /** `w` occurs at `i` ignoring case, with a word boundary on both sides (the keywords begin
      and end with letters, so `\b` there means "no word character next to it"). */
  predicate WordAt(s: string, i: int, w: string) {
    && AtCI(s, i, w)
    && (i == 0 || !IsWordChar(s[i - 1]))
    && (i + |w| == |s| || !IsWordChar(s[i + |w|]))
  }

  /** `re.search(r'\bW\b', s[from..], re.IGNORECASE)` succeeds. */
  function FindWord(s: string, w: string, from: nat): (found: bool)
    ensures found <==> exists i :: from <= i && WordAt(s, i, w)
    decreases |s| - from
  {
    if from + |w| > |s| then false
    else WordAt(s, from, w) || FindWord(s, w, from + 1)
  }

  /** `re.search(r'\b(W1|W2|...)\b', s, re.IGNORECASE)` succeeds. */
  function ContainsAnyWord(s: string, ws: seq<string>): (found: bool)
    ensures found <==> exists w, i :: w in ws && WordAt(s, i, w)
  {
    if ws == [] then false
    else if FindWord(s, ws[0], 0) then true
    else
      var rest := ContainsAnyWord(s, ws[1..]);
      assert forall w :: w in ws ==> w == ws[0] || w in ws[1..];
      rest
  }

  // ================================================================ decision-macro parameters

  /** Group 1 of `re.search(OPEN + r'([^<]*)' + CLOSE, s[from..])` for literal tags OPEN and
      CLOSE: the first OPEN whose run of text up to the next `<` is followed by CLOSE. */
  function TagValueFrom(s: string, open: string, close: string, from: nat): (r: Option<string>)
    requires open != []
    ensures r.Some? ==> '<' !in r.value
    decreases |s| - from
  {
    match Find(s, open, from, false)
    case None => None
    case Some(i) =>
      var v := i + |open|;
      var e := NextIndex(s, '<', v);
      if At(s, e, close) then Some(s[v..e]) else TagValueFrom(s, open, close, i + 1)
  }

  /** A tagged value written out is read back: the first OPEN is the one written, since no `<`
      comes before it, and its text runs up to the `<` of CLOSE. */
  lemma TagValueRoundTrip(pre: string, open: string, v: string, close: string, post: string)
    requires open != [] && open[0] == '<' && close != [] && close[0] == '<'
    requires '<' !in pre && '<' !in v
    ensures TagValueFrom(pre + open + v + close + post, open, close, 0) == Some(v)
  {
    var s := pre + open + v + close + post;
    TaggedLayout(pre, open, v, close, post);
    forall j | 0 <= j < |pre|
      ensures s[j] != open[0]
    {
      assert s[j] == s[..|pre| + |open|][j] == pre[j];
    }
    FindFirst(s, open, |pre|);
    TagValueFound(s, open, close, |pre|, v);
  }

  /** A tagged value written after a text in which OPEN does not begin is read back: the
      search passes over that text and stops at the OPEN written. */
  lemma TagValueAfter(pre: string, open: string, v: string, close: string, post: string)
    requires open != [] && close != [] && close[0] == '<' && '<' !in v
    requires forall j :: 0 <= j < |pre| ==> !At(pre + open, j, open)
    ensures TagValueFrom(pre + open + v + close + post, open, close, 0) == Some(v)
  {
    var s := pre + open + v + close + post;
    var b := |pre| + |open|;
    TaggedLayout(pre, open, v, close, post);
    forall j | 0 <= j < |pre|
      ensures !MatchAt(s, j, open, false)
    {
      assert !At(pre + open, j, open);
      AtKeptPrefix(s, pre + open, b, j, open);
    }
    FindAt(s, open, 0, |pre|, false);
    TagValueFound(s, open, close, |pre|, v);
  }

  /** Where the pieces of a written-out tagged value lie. */
  lemma TaggedLayout(pre: string, open: string, v: string, close: string, post: string)
    ensures var s := pre + open + v + close + post;
      var b := |pre| + |open|;
      && s[..b] == pre + open && s[|pre|..b] == open
      && s[b..b + |v|] == v && s[b + |v|..b + |v| + |close|] == close
  {
    var s := pre + open + v + close + post;
    var b := |pre| + |open|;
    assert s == (pre + open) + v + close + post;
  }

  /** OPEN found first at `i`, followed by a text without `<` and CLOSE, gives that text. */
  lemma TagValueFound(s: string, open: string, close: string, i: nat, v: string)
    requires open != [] && close != [] && close[0] == '<' && '<' !in v
    requires Find(s, open, 0, false) == Some(i)
    requires i + |open| + |v| + |close| <= |s|
    requires s[i + |open|..i + |open| + |v|] == v
    requires s[i + |open| + |v|..i + |open| + |v| + |close|] == close
    ensures TagValueFrom(s, open, close, 0) == Some(v)
  {
    var b := i + |open|;
    var e := b + |v|;
    assert s[e] == s[e..e + |close|][0];
    RunBeforeLess(s, b, v);
    TagValueHit(s, open, close, 0, i, e);
  }

  /** The value OPEN at `i` leads to, when its text is followed by CLOSE. */
  lemma TagValueHit(s: string, open: string, close: string, from: nat, i: nat, e: nat)
    requires open != [] && Find(s, open, from, false) == Some(i)
    requires NextIndex(s, '<', i + |open|) == e && At(s, e, close)
    ensures TagValueFrom(s, open, close, from) == Some(s[i + |open|..e])
  {
  }

  /** A text without `<` written at `b` and followed by `<` ends where the next `<` is. */
  lemma RunBeforeLess(s: string, b: nat, v: string)
    requires '<' !in v && b + |v| < |s| && s[b..b + |v|] == v && s[b + |v|] == '<'
    ensures NextIndex(s, '<', b) == b + |v|
  {
    forall k | b <= k < b + |v|
      ensures s[k] != '<'
    {
      assert s[k] == v[k - b];
    }
    NextIndexAt(s, '<', b, b + |v|);
  }

  const ParamClose := "</ac:parameter>"

  /** The opening tag `<ac:parameter ac:name="NAME">`. */
  function ParamOpen(name: string): string {
    "<ac:parameter ac:name=\"" + name + "\">"
  }

  /** Group 1 of `re.search(r'<ac:parameter ac:name="NAME">([^<]*)</ac:parameter>', s)`. */
  function ParamValue(s: string, name: string): (r: Option<string>)
    ensures r.Some? ==> '<' !in r.value
  {
    TagValueFrom(s, ParamOpen(name), ParamClose, 0)
  }

  /** A parameter element written out is read back with its value. */
  lemma ParamValueRoundTrip(pre: string, name: string, v: string, post: string)
    requires '<' !in pre && '<' !in v
    ensures ParamValue(pre + ParamOpen(name) + v + ParamClose + post, name) == Some(v)
  {
    TagValueRoundTrip(pre, ParamOpen(name), v, ParamClose, post);
  }

  /** A parameter element written after another one is read back with its value, as long as
      the two names differ and have the same length and the first value has no `<`. */
  lemma SecondParamValue(name1: string, v1: string, mid: string, name2: string, v2: string, post: string)
    requires |name1| == |name2| && name1 != name2
    requires '<' !in mid && '<' !in v1 && '<' !in v2 && '<' !in name1 && '<' !in name2
    ensures ParamValue(mid + ParamOpen(name1) + v1 + ParamClose + mid + ParamOpen(name2) + v2 + ParamClose + post, name2)
            == Some(v2)
  {
    var open := ParamOpen(name2);
    var pre := mid + ParamOpen(name1) + v1 + ParamClose + mid;
    var t := pre + open;
    var a := |mid|;
    var c := a + |ParamOpen(name1)| + |v1|;
    forall j | 0 <= j < |pre|
      ensures !At(t, j, open)
    {
      if j == a {
        assert t[j..j + |open|] == ParamOpen(name1);
        assert ParamOpen(name1)[23..23 + |name1|] == name1;
        assert open[23..23 + |name2|] == name2;
      } else if j == c {
        assert t[j + 1] == '/';
        assert open[1] == 'a';
      } else {
        NotTagStart(mid, name1, v1, j);
        assert t[j] == pre[j];
        assert open[0] == '<';
      }
    }
    assert mid + ParamOpen(name1) + v1 + ParamClose + mid + open + v2 + ParamClose + post
        == pre + open + v2 + ParamClose + post;
    TagValueAfter(pre, open, v2, ParamClose, post);
  }

  /** Away from the two tags, the text before the second parameter holds no `<`. */
  lemma NotTagStart(mid: string, name1: string, v1: string, j: nat)
    requires '<' !in mid && '<' !in v1 && '<' !in name1
    requires j < |mid + ParamOpen(name1) + v1 + ParamClose + mid|
    requires j != |mid| && j != |mid| + |ParamOpen(name1)| + |v1|
    ensures (mid + ParamOpen(name1) + v1 + ParamClose + mid)[j] != '<'
  {
    var a := |mid|;
    var pre := mid + ParamOpen(name1) + v1 + ParamClose + mid;
    var b := a + |ParamOpen(name1)|;
    var c := b + |v1|;
    var e := c + |ParamClose|;
    if j < a {
      assert pre[j] == mid[j];
    } else if j < b {
      assert pre[j] == ParamOpen(name1)[j - a];
      assert ParamOpen(name1) == "<ac:parameter ac:name=\"" + name1 + "\">";
      if 23 <= j - a < 23 + |name1| {
        assert pre[j] == name1[j - a - 23];
      }
    } else if j < c {
      assert pre[j] == v1[j - b];
    } else if j < e {
      assert pre[j] == ParamClose[j - c];
    } else {
      assert pre[j] == mid[j - e];
    }
  }

  // ================================================================ decision-macro body

  const BodyOpen := "<ac:rich-text-body>"
  const BodyClose := "</ac:rich-text-body>"

  /** `</p>\s*</ac:rich-text-body>` starts at `e`. */
  predicate ClosesBody(s: string, e: nat) {
    At(s, e, "</p>") && At(s, SkipSpace(s, e + 4), BodyClose)
  }

  /** The group `[^<]*(?:<[^>]*>[^<]*)*` starting at `pos` can only stop just before a `<` that
      begins one of its tags (text runs are maximal and a tag ends at the first `>`). The
      greedy engine tries the last such stop first, so the group ends at the last stop that
      `</p>\s*</ac:rich-text-body>` follows. */
  function ChainEnd(s: string, pos: nat): (r: Option<nat>)
    requires pos <= |s|
    ensures r.Some? ==> pos <= r.value < |s| && ClosesBody(s, r.value)
    decreases |s| - pos
  {
    var e := NextIndex(s, '<', pos);
    if e == |s| then None
    else
      var g := NextIndex(s, '>', e + 1);
      var later := if g < |s| then ChainEnd(s, g + 1) else None;
      if later.Some? then later else if ClosesBody(s, e) then Some(e) else None
  }

  function BodyParagraphFrom(s: string, from: nat): Option<string>
    decreases |s| - from
  {
    match Find(s, BodyOpen, from, false)
    case None => None
    case Some(i) =>
      var p := SkipSpace(s, i + |BodyOpen|);
      if At(s, p, "<p>") && ChainEnd(s, p + 3).Some? then Some(s[p + 3..ChainEnd(s, p + 3).value])
      else BodyParagraphFrom(s, i + 1)
  }

  /** Group 1 of
      `re.search(r'<ac:rich-text-body>\s*<p>([^<]*(?:<[^>]*>[^<]*)*)</p>\s*</ac:rich-text-body>', s)`. */
  function BodyParagraph(s: string): Option<string> {
    BodyParagraphFrom(s, 0)
  }

  // ================================================================ tag clean-up

  /** `re.sub(r'<br/?>', '\n', s)`. */
  function BreaksToNewlines(s: string): string
    decreases |s|
  {
    if s == [] then ""
    else if s[0] == '<' && At(s, 0, "<br/>") then "\n" + BreaksToNewlines(s[5..])
    else if s[0] == '<' && At(s, 0, "<br>") then "\n" + BreaksToNewlines(s[4..])
    else [s[0]] + BreaksToNewlines(s[1..])
  }

  /** `re.sub(r'<[^>]+>', '', s)`: a `<` followed by at least one character and then the first
      `>` after it is a tag and is deleted. */
  function StripTags(s: string): (r: string)
    ensures |r| <= |s|
    decreases |s|
  {
    if s == [] then ""
    else if s[0] == '<' && 1 < NextIndex(s, '>', 1) < |s| then StripTags(s[NextIndex(s, '>', 1) + 1..])
    else [s[0]] + StripTags(s[1..])
  }

  /** Text without `<` has no line break tags. */
  lemma {:induction false} BreaksToNewlinesPlain(s: string)
    requires '<' !in s
    ensures BreaksToNewlines(s) == s
  {
    if s != [] {
      BreaksToNewlinesPlain(s[1..]);
      assert [s[0]] + s[1..] == s;
    }
  }

  /** Text without `<` has no tags. */
  lemma StripTagsPlain(s: string)
    requires '<' !in s
    ensures StripTags(s) == s
  {
    StripTagsPlainRun(s, 0, |s|);
    assert s[0..] == s[0..|s|] == s;
  }

  /** A tag at the start of the text is deleted whole. */
  lemma StripTagsHead(t: string, b: string)
    requires t != [] && '>' !in t
    ensures StripTags("<" + t + ">" + b) == StripTags(b)
  {
    var s := "<" + t + ">" + b;
    assert forall k :: 1 <= k < |t| + 1 ==> s[k] == t[k - 1];
    assert s[|t| + 1] == '>';
    assert NextIndex(s, '>', 1) == |t| + 1;
    assert s[|t| + 2..] == b;
  }

  lemma StripTagsKeepsAt(s: string, k: nat)
    requires k < |s| && s[k] != '<'
    ensures StripTags(s[k..]) == [s[k]] + StripTags(s[k + 1..])
  {
    DropTwice(s, k, 1);
  }

  /** A run without `<` passes through tag removal unchanged. */
  lemma {:induction false} StripTagsPlainRun(s: string, k: nat, e: nat)
    requires k <= e <= |s|
    requires forall j :: k <= j < e ==> s[j] != '<'
    ensures StripTags(s[k..]) == s[k..e] + StripTags(s[e..])
    decreases e - k
  {
    if k < e {
      StripTagsKeepsAt(s, k);
      StripTagsPlainRun(s, k + 1, e);
      assert s[k..e] == [s[k]] + s[k + 1..e];
      Associative([s[k]], s[k + 1..e], StripTags(s[e..]));
    }
  }

  /** A tag is deleted whole and the text around it is kept. */
  lemma StripTagsRemovesTag(a: string, t: string, b: string)
    requires '<' !in a && t != [] && '>' !in t
    ensures StripTags(a + "<" + t + ">" + b) == a + StripTags(b)
  {
    var s := a + "<" + t + ">" + b;
    assert s[|a|..] == "<" + t + ">" + b;
    assert s[..|a|] == a;
    StripTagsHead(t, b);
    StripTagsPlainRun(s, 0, |a|);
    assert s[0..] == s;
  }

  /** A run without `<` passes through the line-break substitution unchanged. */
  lemma {:induction false} BreaksAfterPlain(a: string, b: string)
    requires '<' !in a
    ensures BreaksToNewlines(a + b) == a + BreaksToNewlines(b)
  {
    if a != [] {
      var s := a + b;
      assert s[0] == a[0] != '<' && s[1..] == a[1..] + b;
      assert BreaksToNewlines(s) == [a[0]] + BreaksToNewlines(a[1..] + b);
      BreaksAfterPlain(a[1..], b);
      assert [a[0]] + a[1..] == a;
      Associative([a[0]], a[1..], BreaksToNewlines(b));
    } else {
      assert a + b == b;
    }
  }

  /** `<br>` at the start becomes a newline. */
  lemma BreakHead(b: string)
    ensures BreaksToNewlines("<br>" + b) == "\n" + BreaksToNewlines(b)
  {
    var s := "<br>" + b;
    assert s[3] == '>';
    assert s[..4] == "<br>" && s[4..] == b;
  }

  /** `<br/>` at the start becomes a newline. */
  lemma SlashBreakHead(b: string)
    ensures BreaksToNewlines("<br/>" + b) == "\n" + BreaksToNewlines(b)
  {
    var s := "<br/>" + b;
    assert s[..5] == "<br/>" && s[5..] == b;
  }

  /** A `<br>` after a run without `<` becomes a newline, and the rest is read on. */
  lemma BreaksToNewlinesBreak(a: string, b: string)
    requires '<' !in a
    ensures BreaksToNewlines(a + "<br>" + b) == a + "\n" + BreaksToNewlines(b)
  {
    assert a + "<br>" + b == a + ("<br>" + b);
    BreaksAfterPlain(a, "<br>" + b);
    BreakHead(b);
  }

  /** A `<br/>` after a run without `<` becomes a newline, and the rest is read on. */
  lemma BreaksToNewlinesSlashBreak(a: string, b: string)
    requires '<' !in a
    ensures BreaksToNewlines(a + "<br/>" + b) == a + "\n" + BreaksToNewlines(b)
  {
    assert a + "<br/>" + b == a + ("<br/>" + b);
    BreaksAfterPlain(a, "<br/>" + b);
    SlashBreakHead(b);
  }

  /** Any other tag is left for tag removal. */
  lemma BreaksKeepTag(a: string, t: string, b: string)
    requires '<' !in a && '<' !in t && '>' !in t && t != "br" && t != "br/"
    ensures BreaksToNewlines(a + "<" + t + ">" + b) == a + "<" + t + ">" + BreaksToNewlines(b)
  {
    var x := "<" + t + ">";
    TagHeadKept(t, b);
    assert a + "<" + t + ">" + b == a + (x + b);
    assert a + "<" + t + ">" + BreaksToNewlines(b) == a + (x + BreaksToNewlines(b));
    BreaksAfterPlain(a, x + b);
  }

  /** A tag other than `br` and `br/` at the start is kept, and the rest is read on. */
  lemma TagHeadKept(t: string, b: string)
    requires '<' !in t && '>' !in t && t != "br" && t != "br/"
    ensures BreaksToNewlines("<" + t + ">" + b) == "<" + t + ">" + BreaksToNewlines(b)
  {
    var s := "<" + t + ">" + b;
    BreakTagIs(t, b);
    assert s[0] == '<' && s[1..] == (t + ">") + b;
    BreaksAfterPlain(t + ">", b);
  }

  /** The only tags that read as line breaks are `br` and `br/`. */
  lemma BreakTagIs(t: string, b: string)
    requires '>' !in t
    ensures At("<" + t + ">" + b, 0, "<br>") ==> t == "br"
    ensures At("<" + t + ">" + b, 0, "<br/>") ==> t == "br/"
  {
    var s := "<" + t + ">" + b;
    assert forall k :: 1 <= k <= |t| ==> s[k] == t[k - 1];
    assert s[|t| + 1] == '>';
    if At(s, 0, "<br>") {
      assert s[..4][1] == 'b' && s[..4][2] == 'r' && s[..4][3] == '>';
      assert t == s[1..3];
    }
    if At(s, 0, "<br/>") {
      assert s[..5][1] == 'b' && s[..5][2] == 'r' && s[..5][3] == '/' && s[..5][4] == '>';
      assert t == s[1..4];
    }
  }

  /** No tag survives tag removal: every `<` left is followed at once by `>`, or has no `>`
      anywhere after it, so `<[^>]+>` has no match in the result. */
  predicate TagFree(r: string) {
    forall k :: 0 <= k < |r| && r[k] == '<' ==> (k + 1 < |r| && r[k + 1] == '>') || '>' !in r[k + 1..]
  }

  /** Tag removal only drops characters. */
  lemma {:induction false} StripTagsKeepsChars(s: string)
    ensures forall c :: c in StripTags(s) ==> c in s
    decreases |s|
  {
    if s != [] {
      if s[0] == '<' && 1 < NextIndex(s, '>', 1) < |s| {
        var n := NextIndex(s, '>', 1);
        StripTagsKeepsChars(s[n + 1..]);
        assert forall c :: c in s[n + 1..] ==> c in s;
      } else {
        StripTagsKeepsChars(s[1..]);
        assert forall c :: c in s[1..] ==> c in s;
      }
    }
  }

  /** A character in front of a tag-free text keeps it tag-free unless it opens a tag. */
  lemma TagFreeCons(c: char, t: string)
    requires TagFree(t)
    requires c == '<' ==> (t != [] && t[0] == '>') || '>' !in t
    ensures TagFree([c] + t)
  {
    var r := [c] + t;
    forall k | 0 <= k < |r| && r[k] == '<'
      ensures (k + 1 < |r| && r[k + 1] == '>') || '>' !in r[k + 1..]
    {
      if k == 0 {
        assert r[1..] == t;
      } else {
        assert r[k] == t[k - 1] && r[k + 1..] == t[k..];
      }
    }
  }

  /** Tag removal leaves no tag behind. */
  lemma {:induction false} StripTagsTagFree(s: string)
    ensures TagFree(StripTags(s))
    decreases |s|
  {
    if s != [] {
      var n := NextIndex(s, '>', 1);
      if s[0] == '<' && 1 < n < |s| {
        StripTagsTagFree(s[n + 1..]);
      } else {
        var t := StripTags(s[1..]);
        StripTagsTagFree(s[1..]);
        if s[0] == '<' {
          if n < |s| {
            StripTagsKeepsAt(s, 1);
          } else {
            StripTagsKeepsChars(s[1..]);
            assert '>' !in s[1..];
          }
        }
        TagFreeCons(s[0], t);
      }
    }
  }

  /** A slice of a tag-free text is tag-free. */
  lemma TagFreeSlice(r: string, i: nat, j: nat)
    requires TagFree(r) && i <= j <= |r|
    ensures TagFree(r[i..j])
  {
    var x := r[i..j];
    forall k | 0 <= k < |x| && x[k] == '<'
      ensures (k + 1 < |x| && x[k + 1] == '>') || '>' !in x[k + 1..]
    {
      assert r[i + k] == '<';
      if '>' in x[k + 1..] {
        var m :| 0 <= m < |x[k + 1..]| && x[k + 1..][m] == '>';
        assert r[i + k + 1..][m] == '>';
        assert x[k + 1] == r[i + k + 1];
      }
    }
  }

  /** Stripping a tag-free text leaves it tag-free. */
  lemma StripKeepsTagFree(t: string)
    requires TagFree(t)
    ensures TagFree(Strip(t))
  {
    var i, j :| 0 <= i <= j <= |t| && Strip(t) == t[i..j] && AllSpace(t[..i]) && AllSpace(t[j..]);
    TagFreeSlice(t, i, j);
  }

  // ================================================================ `D(.*?)D` substitutions

  /** The closing delimiter of `re.sub(D + '(.*?)' + D, …)` matching at the start of `s`: the
      next `D` after the opening one, reached without crossing a newline (`.` stops at one). */
  function EmphasisEnd(s: string, d: string): (r: Option<nat>)
    requires d != []
    ensures r.Some? ==> var j := r.value;
      && |d| <= j && j + |d| <= |s| && At(s, 0, d) && At(s, j, d)
      && forall k :: |d| <= k < j ==> s[k] != '\n'
  {
    if !At(s, 0, d) then None
    else match Find(s, d, |d|, false)
      case None => None
      case Some(j) => if NextIndex(s, '\n', |d|) >= j then Some(j) else None
  }

  /** `re.sub(D + '(.*?)' + D, OPEN + r'\1' + CLOSE, s)`. */
  function Emphasize(s: string, d: string, open: string, close: string): string
    requires d != []
    decreases |s|
  {
    if s == [] then ""
    else match EmphasisEnd(s, d)
      case Some(j) => open + s[|d|..j] + close + Emphasize(s[j + |d|..], d, open, close)
      case None => [s[0]] + Emphasize(s[1..], d, open, close)
  }

  lemma EmphasisSpanEnd(d: string, t: string, rest: string)
    requires d != [] && d[0] !in t && '\n' !in t
    ensures var s := d + t + d + rest;
      && EmphasisEnd(s, d) == Some(|d| + |t|)
      && s[|d|..|d| + |t|] == t && s[|d| + |t| + |d|..] == rest
  {
    var s := d + t + d + rest;
    var j := |d| + |t|;
    assert s[..|d|] == d;
    assert s[j..j + |d|] == d;
    assert s[|d|..j] == t;
    assert s[j + |d|..] == rest;
    assert forall k :: |d| <= k < j ==> s[k] == t[k - |d|];
    forall k | |d| <= k < j
      ensures !MatchAt(s, k, d, false)
    {
      assert s[k..k + |d|][0] == s[k];
    }
    FindAt(s, d, |d|, j, false);
  }

  /** Text without the delimiter's first character is left alone. */
  lemma {:induction false} EmphasizeAbsent(s: string, d: string, open: string, close: string)
    requires d != [] && d[0] !in s
    ensures Emphasize(s, d, open, close) == s
  {
    if s != [] {
      if |d| <= |s| {
        assert s[..|d|][0] == s[0];
      }
      EmphasizeAbsent(s[1..], d, open, close);
      assert [s[0]] + s[1..] == s;
    }
  }

  /** A delimited span on one line is replaced by its markup, and the scan resumes after it. */
  lemma EmphasizeSpan(d: string, t: string, rest: string, open: string, close: string)
    requires d != [] && d[0] !in t && '\n' !in t
    ensures Emphasize(d + t + d + rest, d, open, close) == open + t + close + Emphasize(rest, d, open, close)
  {
    var s := d + t + d + rest;
    EmphasisSpanEnd(d, t, rest);
    EmphasizeHead(s, d, open, close, |d| + |t|);
  }

  /** Where a span closes at `j`, its markup comes first and the scan resumes after it. */
  lemma EmphasizeHead(s: string, d: string, open: string, close: string, j: nat)
    requires d != [] && s != [] && EmphasisEnd(s, d) == Some(j)
    ensures Emphasize(s, d, open, close) == open + s[|d|..j] + close + Emphasize(s[j + |d|..], d, open, close)
  {
  }

  // ================================================================ status-counter elements

  /** A match at `i` of `OPEN[^>]+ATTR[^>]*>(.*?)CLOSE` with DOTALL and IGNORECASE: the index of
      the `>` ending the opening tag and the index of the closing tag. The opening tag runs to
      the first `>`, ATTR must lie inside it after at least one character, and the lazy body
      stops at the first CLOSE. */
  function ElementAt(s: string, i: nat, open: string, attr: string, close: string): (r: Option<(nat, nat)>)
    ensures r.Some? ==> i < r.value.0 < r.value.1 && r.value.1 + |close| <= |s|
    ensures r.Some? ==> AtCI(s, i, open) && AtCI(s, r.value.1, close)
  {
    if !AtCI(s, i, open) then None
    else
      var g := NextIndex(s, '>', i + |open|);
      if g == |s| then None
      else match Find(s, attr, i + |open| + 1, true)
        case None => None
        case Some(k) =>
          if k + |attr| > g then None
          else match Find(s, close, g + 1, true)
            case None => None
            case Some(c) => Some((g, c))
  }

  /** `re.findall(OPEN + r'[^>]+' + ATTR + r'[^>]*>(.*?)' + CLOSE, s[from..], DOTALL | IGNORECASE)`. */
  function Elements(s: string, from: nat, open: string, attr: string, close: string): seq<string>
    decreases |s| - from
  {
    if from >= |s| then []
    else match ElementAt(s, from, open, attr, close)
      case Some((g, c)) => [s[g + 1..c]] + Elements(s, c + |close|, open, attr, close)
      case None => Elements(s, from + 1, open, attr, close)
  }

  /** Group 1 of `re.search(OPEN + r'[^>]+' + ATTR + r'[^>]*>(.*?)' + CLOSE, s[from..], DOTALL | IGNORECASE)`. */
  function FirstElement(s: string, from: nat, open: string, attr: string, close: string): (r: Option<string>)
    ensures r.None? <==> forall i :: from <= i < |s| ==> ElementAt(s, i, open, attr, close).None?
    decreases |s| - from
  {
    if from >= |s| then None
    else match ElementAt(s, from, open, attr, close)
      case Some((g, c)) => Some(s[g + 1..c])
      case None => FirstElement(s, from + 1, open, attr, close)
  }

  // ================================================================ decision macros

  const DecisionOpen := "<ac:structured-macro ac:name=\"decision\""
  const MacroIdAttr := "ac:macro-id=\""
  const MacroClose := "</ac:structured-macro>"

  /** One match of the decision-macro pattern: the macro id, the macro's inner markup, and the
      index just past the closing tag. */
  datatype MacroMatch = MacroMatch(id: string, content: string, end: nat)

  /** The lazy `[^>]*?` before `ac:macro-id="` tries the attribute at `k`, `k + 1`, … up to the
      `>` at `g` that ends the opening tag. Once placed, the id runs to the next `"`, the tag to
      the next `>`, and the lazy body to the next `</ac:structured-macro>`. */
  function MacroIdFrom(s: string, k: nat, g: nat): (r: Option<MacroMatch>)
    requires k <= g <= |s|
    ensures r.Some? ==> k < r.value.end <= |s|
    decreases g - k
  {
    if k == g then None
    else match MacroIdAt(s, k)
      case Some(m) => Some(m)
      case None => MacroIdFrom(s, k + 1, g)
  }

  /** The attempt with the attribute placed at `k`. */
  function MacroIdAt(s: string, k: nat): (r: Option<MacroMatch>)
    requires k <= |s|
    ensures r.Some? ==> k < r.value.end <= |s|
  {
    if !At(s, k, MacroIdAttr) then None else IdFrom(s, k + |MacroIdAttr|)
  }

  /** The id runs from `b` to the next `"`. */
  function IdFrom(s: string, b: nat): (r: Option<MacroMatch>)
    requires b <= |s|
    ensures r.Some? ==> b < r.value.end <= |s|
  {
    var q := NextIndex(s, '"', b);
    if q == |s| then None else TagRest(s, b, q)
  }

  /** The opening tag runs from the quote at `q` to the next `>`. */
  function TagRest(s: string, b: nat, q: nat): (r: Option<MacroMatch>)
    requires b <= q < |s|
    ensures r.Some? ==> q < r.value.end <= |s|
  {
    var h := NextIndex(s, '>', q + 1);
    if h == |s| then None else BodyRest(s, b, q, h)
  }

  /** The lazy body runs from the `>` at `h` to the next closing tag. */
  function BodyRest(s: string, b: nat, q: nat, h: nat): (r: Option<MacroMatch>)
    requires b <= q <= h < |s|
    ensures r.Some? ==> h < r.value.end <= |s|
  {
    match Find(s, MacroClose, h + 1, false)
    case None => None
    case Some(c) => Some(MacroMatch(s[b..q], s[h + 1..c], c + |MacroClose|))
  }

  /** The lazy scan passes over places where the attribute does not begin. */
  lemma {:induction false} MacroIdFromSkip(s: string, k: nat, a: nat, g: nat)
    requires k <= a <= g <= |s|
    requires forall j :: k <= j < a ==> !At(s, j, MacroIdAttr)
    ensures MacroIdFrom(s, k, g) == MacroIdFrom(s, a, g)
    decreases a - k
  {
    if k < a {
      MacroIdFromSkip(s, k + 1, a, g);
    }
  }

  /** Where the attribute begins, its value runs to the next `"`, and the tag and a closing
      tag follow, the attempt at that place matches with that id. */
  lemma MacroIdHere(s: string, a: nat, q: nat, h: nat, c: nat, id: string, content: string, end: nat)
    requires a <= |s| && At(s, a, MacroIdAttr)
    requires q < |s| && NextIndex(s, '"', a + |MacroIdAttr|) == q && s[a + |MacroIdAttr|..q] == id
    requires h < |s| && NextIndex(s, '>', q + 1) == h
    requires Find(s, MacroClose, h + 1, false) == Some(c) && s[h + 1..c] == content
    requires end == c + |MacroClose|
    ensures MacroIdAt(s, a) == Some(MacroMatch(id, content, end))
  {
    var b := a + |MacroIdAttr|;
    var m := BodyHere(s, b, q, h, c);
    assert TagRest(s, b, q) == Some(m);
    assert IdFrom(s, b) == Some(m);
  }

  /** The lazy scan stops at the first place where the attempt matches. */
  lemma MacroIdFromHit(s: string, a: nat, g: nat, m: MacroMatch)
    requires a < g <= |s| && MacroIdAt(s, a) == Some(m)
    ensures MacroIdFrom(s, a, g) == Some(m)
  {
  }

  lemma BodyHere(s: string, b: nat, q: nat, h: nat, c: nat) returns (m: MacroMatch)
    requires b <= q <= h < |s|
    requires Find(s, MacroClose, h + 1, false) == Some(c)
    ensures m == MacroMatch(s[b..q], s[h + 1..c], c + |MacroClose|) && BodyRest(s, b, q, h) == Some(m)
  {
    assert h + 1 <= c && c + |MacroClose| <= |s|;
    m := MacroMatch(s[b..q], s[h + 1..c], c + |MacroClose|);
  }

  /** A match of
      `<ac:structured-macro ac:name="decision"[^>]*?ac:macro-id="([^"]*)"[^>]*>(.*?)</ac:structured-macro>`
      (DOTALL) at `i`. */
  function DecisionMacroAt(s: string, i: nat): (r: Option<MacroMatch>)
    requires i <= |s|
    ensures r.Some? ==> i < r.value.end <= |s|
  {
    if !At(s, i, DecisionOpen) then None
    else MacroIdFrom(s, i + |DecisionOpen|, NextIndex(s, '>', i + |DecisionOpen|))
  }

  /** `re.findall` of the decision-macro pattern over `s[from..]`: (macro id, inner markup) pairs. */
  function DecisionMacros(s: string, from: nat): seq<(string, string)>
    requires from <= |s|
    decreases |s| - from
  {
    if from == |s| then []
    else match DecisionMacroAt(s, from)
      case Some(m) => [(m.id, m.content)] + DecisionMacros(s, m.end)
      case None => DecisionMacros(s, from + 1)
  }
}
