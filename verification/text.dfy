/** String primitives the scripts take from Python's `str`: whitespace, strip, find, split,
    join, single-character replace and decimal formatting of counts. */
module Text {

  datatype Option<+T> = None | Some(value: T)

  /** The characters `str.isspace` accepts; `str.strip()` and the `\s` class of a `re` pattern
      on `str` use the same set. */
  predicate IsSpace(c: char) {
    c == ' ' || ('\t' <= c && c <= '\r') || ('\U{1c}' <= c && c <= '\U{1f}')
    || c == '\U{85}' || c == '\U{a0}' || c == '\U{1680}' || ('\U{2000}' <= c && c <= '\U{200a}')
    || c == '\U{2028}' || c == '\U{2029}' || c == '\U{202f}' || c == '\U{205f}' || c == '\U{3000}'
  }

  predicate AllSpace(s: string) {
    forall k :: 0 <= k < |s| ==> IsSpace(s[k])
  }

  /** Neither end of `s` is whitespace: what `strip()` leaves behind. */
  predicate Trimmed(s: string) {
    s == [] || (!IsSpace(s[0]) && !IsSpace(s[|s| - 1]))
  }

  /** The end of `s[lo..hi]` once its trailing whitespace is dropped. */
  function TrimEnd(s: string, lo: nat, hi: nat): (k: nat)
    requires lo <= hi <= |s|
    ensures lo <= k <= hi
    ensures k > lo ==> !IsSpace(s[k - 1])
    ensures AllSpace(s[k..hi])
    decreases hi
  {
    if hi == lo || !IsSpace(s[hi - 1]) then hi
    else
      var k := TrimEnd(s, lo, hi - 1);
      assert forall j :: k <= j < hi - 1 ==> s[k..hi - 1][j - k] == s[j];
      k
  }

  /** `str.strip()`: the slice of `s` left once whitespace is dropped at both ends. Only
      whitespace is dropped, and as much of it as there is at either end. */
  function Strip(s: string): (r: string)
    ensures Trimmed(r) && |r| <= |s|
    ensures exists i, j :: 0 <= i <= j <= |s| && r == s[i..j] && AllSpace(s[..i]) && AllSpace(s[j..])
  {
    var i := SkipSpace(s, 0);
    var j := TrimEnd(s, i, |s|);
    assert s[..i] == s[0..i] && s[j..] == s[j..|s|];
    s[i..j]
  }

  /** Every character `strip()` keeps comes from its argument. */
  lemma StripKeeps(s: string)
    ensures forall c :: c in Strip(s) ==> c in s
  {
    var i := SkipSpace(s, 0);
    var r := Strip(s);
    forall c | c in r
      ensures c in s
    {
      var k :| 0 <= k < |r| && r[k] == c;
      assert s[i + k] == c;
    }
  }

  /** Stripping text that has no whitespace at either end changes nothing. */
  lemma StripTrimmed(s: string)
    requires Trimmed(s)
    ensures Strip(s) == s
  {
  }

  /** Stripping is idempotent. */
  lemma StripIdempotent(s: string)
    ensures Strip(Strip(s)) == Strip(s)
  {
    StripTrimmed(Strip(s));
  }

  // ---------------------------------------------------------------- case (ASCII only)

  function LowerChar(c: char): char {
    if 'A' <= c <= 'Z' then (c as int + 32) as char else c
  }

  function UpperChar(c: char): char {
    if 'a' <= c <= 'z' then (c as int - 32) as char else c
  }

  function Lower(s: string): (r: string)
    ensures |r| == |s| && forall k :: 0 <= k < |s| ==> r[k] == LowerChar(s[k])
  {
    seq(|s|, k requires 0 <= k < |s| => LowerChar(s[k]))
  }

  function Upper(s: string): (r: string)
    ensures |r| == |s| && forall k :: 0 <= k < |s| ==> r[k] == UpperChar(s[k])
  {
    seq(|s|, k requires 0 <= k < |s| => UpperChar(s[k]))
  }

  // ---------------------------------------------------------------- finding

  /** `p` occurs in `s` at index `i`. */
  predicate At(s: string, i: int, p: string) {
    0 <= i && i + |p| <= |s| && s[i..i + |p|] == p
  }

  /** `p` occurs in `s` at index `i`, letters compared without regard to case. */
  predicate AtCI(s: string, i: int, p: string) {
    0 <= i && i + |p| <= |s| && Lower(s[i..i + |p|]) == Lower(p)
  }

  /** A pattern placed between two texts occurs where it was placed. */
  lemma AtPlaced(a: string, p: string, b: string)
    ensures At(a + p + b, |a|, p)
  {
    assert (a + p + b)[|a|..|a| + |p|] == p;
  }

  predicate MatchAt(s: string, i: int, p: string, ci: bool) {
    if ci then AtCI(s, i, p) else At(s, i, p)
  }

  /** The leftmost occurrence of `p` in `s` at or after `from` (`str.find`, or a `re` literal
      with IGNORECASE when `ci`). */
  function Find(s: string, p: string, from: nat, ci: bool): (r: Option<nat>)
    ensures r.Some? ==> from <= r.value && MatchAt(s, r.value, p, ci)
    decreases |s| - from
  {
    if from + |p| > |s| then None
    else if MatchAt(s, from, p, ci) then Some(from)
    else Find(s, p, from + 1, ci)
  }

  /** `Find` reports the leftmost occurrence, and `None` only when there is none. */
  lemma {:induction false} FindLeftmost(s: string, p: string, from: nat, ci: bool)
    ensures Find(s, p, from, ci).Some? ==> forall j :: from <= j < Find(s, p, from, ci).value ==> !MatchAt(s, j, p, ci)
    ensures Find(s, p, from, ci).None? ==> forall j :: from <= j ==> !MatchAt(s, j, p, ci)
    decreases |s| - from
  {
    if from + |p| <= |s| && !MatchAt(s, from, p, ci) {
      FindLeftmost(s, p, from + 1, ci);
    }
  }

  /** An occurrence with none before it is the one `Find` reports. */
  lemma {:induction false} FindAt(s: string, p: string, from: nat, i: nat, ci: bool)
    requires from <= i && MatchAt(s, i, p, ci)
    requires forall j :: from <= j < i ==> !MatchAt(s, j, p, ci)
    ensures Find(s, p, from, ci) == Some(i)
    decreases i - from
  {
    if from < i {
      FindAt(s, p, from + 1, i, ci);
    }
  }

  /** An occurrence of `p` whose first character appears nowhere before it is the one `Find`
      reports. */
  lemma FindFirst(s: string, p: string, i: nat)
    requires p != [] && At(s, i, p)
    requires forall j :: 0 <= j < i ==> s[j] != p[0]
    ensures Find(s, p, 0, false) == Some(i)
  {
    forall j | 0 <= j < i
      ensures !MatchAt(s, j, p, false)
    {
      assert s[j..j + |p|][0] == s[j];
    }
    FindAt(s, p, 0, i, false);
  }

  /** `p in s`. */
  predicate Contains(s: string, p: string) {
    Find(s, p, 0, false).Some?
  }

  /** A pattern that occurs somewhere is contained. */
  lemma ContainsAt(s: string, p: string, i: nat)
    requires At(s, i, p)
    ensures Contains(s, p)
  {
    FindLeftmost(s, p, 0, false);
    assert MatchAt(s, i, p, false);
  }

  /** Stripping does not change whether a pattern that starts and ends with a non-whitespace
      character occurs. */
  lemma ContainsStripped(s: string, p: string)
    requires p != [] && !IsSpace(p[0]) && !IsSpace(p[|p| - 1])
    ensures Contains(Strip(s), p) <==> Contains(s, p)
  {
    var i, j :| 0 <= i <= j <= |s| && Strip(s) == s[i..j] && AllSpace(s[..i]) && AllSpace(s[j..]);
    if Contains(s[i..j], p) {
      ContainsInSlice(s, i, j, p);
    }
    if Contains(s, p) {
      ContainsBetweenSpace(s, i, j, p);
    }
  }

  lemma ContainsInSlice(s: string, i: nat, j: nat, p: string)
    requires i <= j <= |s| && Contains(s[i..j], p)
    ensures Contains(s, p)
  {
    var m := Find(s[i..j], p, 0, false).value;
    AtInSlice(s, p, i, j, i + m);
    ContainsAt(s, p, i + m);
  }

  lemma ContainsBetweenSpace(s: string, i: nat, j: nat, p: string)
    requires i <= j <= |s| && AllSpace(s[..i]) && AllSpace(s[j..])
    requires p != [] && !IsSpace(p[0]) && !IsSpace(p[|p| - 1]) && Contains(s, p)
    ensures Contains(s[i..j], p)
  {
    var m := Find(s, p, 0, false).value;
    AtBetweenSpace(s, i, j, p, m);
    ContainsAt(s[i..j], p, m - i);
  }

  /** An occurrence that starts and ends with non-whitespace lies between whitespace ends. */
  lemma AtBetweenSpace(s: string, i: nat, j: nat, p: string, m: nat)
    requires i <= j <= |s| && AllSpace(s[..i]) && AllSpace(s[j..])
    requires p != [] && !IsSpace(p[0]) && !IsSpace(p[|p| - 1]) && At(s, m, p)
    ensures i <= m && m + |p| <= j && At(s[i..j], m - i, p)
  {
    assert s[m..m + |p|][0] == s[m] && s[m..m + |p|][|p| - 1] == s[m + |p| - 1];
    AtInSlice(s, p, i, j, m);
  }

  /** A character that does not occur is not found. */
  lemma AbsentChar(s: string, c: char)
    requires c !in s
    ensures !Contains(s, [c])
  {
    forall j | 0 <= j && j + 1 <= |s|
      ensures !MatchAt(s, j, [c], false)
    {
      assert s[j..j + 1][0] == s[j];
    }
  }

  /** `Find` moves past a stretch without matches. */
  lemma {:induction false} FindSkip(s: string, p: string, from: nat, k: nat)
    requires from <= k
    requires forall j :: from <= j < k ==> !At(s, j, p)
    ensures Find(s, p, from, false) == Find(s, p, k, false)
    decreases k - from
  {
    if from < k {
      FindSkip(s, p, from + 1, k);
    }
  }

  /** Matches after a fixed prefix are the matches of the rest, moved by the prefix's length. */
  lemma {:induction false} FindShift(pre: string, y: string, p: string, from: nat)
    requires from <= |y|
    ensures Find(pre + y, p, |pre| + from, false) == Shift(Find(y, p, from, false), |pre|)
    decreases |y| - from
  {
    var s := pre + y;
    if from + |p| <= |y| {
      assert s[|pre| + from..|pre| + from + |p|] == y[from..from + |p|];
      if !At(y, from, p) {
        FindShift(pre, y, p, from + 1);
      }
    }
  }

  function Shift(r: Option<nat>, d: nat): (q: Option<nat>)
    ensures q.Some? <==> r.Some?
    ensures r.Some? ==> q.value == r.value + d
  {
    if r.Some? then Some(r.value + d) else None
  }

  /** The first match in a text that contains the pattern nowhere, a newline the pattern does
      not contain, and a rest is the first match in the rest. */
  lemma FindAcrossNewline(x: string, y: string, p: string)
    requires '\n' !in p && !Contains(x, p)
    ensures Find(x + "\n" + y, p, 0, false) == Shift(Find(y, p, 0, false), |x| + 1)
  {
    var s := x + "\n" + y;
    FindLeftmost(x, p, 0, false);
    forall j | 0 <= j < |x| + 1
      ensures !At(s, j, p)
    {
      assert !MatchAt(x, j, p, false);
      NotAtBeforeNewline(x, y, p, j);
    }
    FindSkip(s, p, 0, |x| + 1);
    FindShift(x + "\n", y, p, 0);
  }

  /** A pattern without a newline that does not occur at `j` in `x` does not occur there once
      a newline and more text follow `x`. */
  lemma NotAtBeforeNewline(x: string, y: string, p: string, j: nat)
    requires '\n' !in p && j <= |x| && !At(x, j, p)
    ensures !At(x + "\n" + y, j, p)
  {
    var s := x + "\n" + y;
    if j + |p| <= |x| {
      assert s[j..j + |p|] == x[j..j + |p|];
    } else if j + |p| <= |s| {
      assert s[j..j + |p|][|x| - j] == s[|x|];
      assert s[|x|] == '\n';
    }
  }

  /** Two texts without a pattern joined by a newline the pattern does not contain are still
      without it. */
  lemma NoneAcrossNewline(x: string, y: string, p: string)
    requires '\n' !in p && !Contains(x, p) && !Contains(y, p)
    ensures !Contains(x + "\n" + y, p)
  {
    FindAcrossNewline(x, y, p);
  }

  /** A pattern that starts a text is found just after a text without it and a newline. */
  lemma FindAfterNewline(x: string, z: string, p: string)
    requires '\n' !in p && !Contains(x, p) && Find(z, p, 0, false) == Some(0)
    ensures Find(x + "\n" + z, p, 0, false) == Some(|x| + 1)
  {
    FindAcrossNewline(x, z, p);
  }

  /** A pattern placed after a text without it and a newline is found there. */
  lemma FindPlacedAfterNewline(x: string, p: string, tail: string)
    requires '\n' !in p && !Contains(x, p)
    ensures Find(x + "\n" + p + tail, p, 0, false) == Some(|x| + 1)
  {
    FindSelf(p);
    FindAfterNewline(x, p, p);
    FindExtend(x + "\n" + p, tail, p, |x| + 1);
  }

  /** A text starts with itself. */
  lemma FindSelf(p: string)
    ensures Find(p, p, 0, false) == Some(0)
  {
    assert p[0..|p|] == p;
    FindAt(p, p, 0, 0, false);
  }

  /** A pattern found in a text is found at the same place once more text follows. */
  lemma FindExtend(x: string, y: string, p: string, i: nat)
    requires Find(x, p, 0, false) == Some(i)
    ensures Find(x + y, p, 0, false) == Some(i)
  {
    FindLeftmost(x, p, 0, false);
    assert MatchAt(x, i, p, false);
    forall j | 0 <= j < i
      ensures !MatchAt(x + y, j, p, false)
    {
      assert !MatchAt(x, j, p, false);
      assert (x + y)[j..j + |p|] == x[j..j + |p|];
    }
    assert (x + y)[i..i + |p|] == x[i..i + |p|];
    FindAt(x + y, p, 0, i, false);
  }

  /** Matches that end within a prefix are the matches of the whole text. */
  lemma AtInPrefix(s: string, p: string, k: nat, j: nat)
    requires k <= |s| && j + |p| <= k
    ensures At(s[..k], j, p) <==> At(s, j, p)
  {
    assert s[..k][j..j + |p|] == s[j..j + |p|];
  }

  /** Matches that lie within a slice are the matches of the slice, shifted. */
  lemma AtInSlice(s: string, p: string, b: nat, e: nat, j: nat)
    requires b <= j && j + |p| <= e <= |s|
    ensures At(s[b..e], j - b, p) <==> At(s, j, p)
  {
    var x, y := s[b..e][j - b..j - b + |p|], s[j..j + |p|];
    assert forall k :: 0 <= k < |p| ==> x[k] == y[k];
    assert x == y;
  }

  /** The character an occurrence puts at each of its offsets. */
  lemma AtChar(s: string, k: nat, p: string, off: nat)
    requires At(s, k, p) && off < |p|
    ensures s[k + off] == p[off]
  {
    assert s[k + off] == s[k..k + |p|][off];
  }

  /** One offset where the text differs from the pattern rules the pattern out there. */
  lemma NotAtByChar(s: string, j: nat, p: string, off: nat)
    requires off < |p| && (j + off < |s| ==> s[j + off] != p[off])
    ensures !At(s, j, p)
  {
    if j + |p| <= |s| {
      assert s[j..j + |p|][off] == s[j + off];
    }
  }

  /** Two texts that share a prefix agree on the occurrences inside it. */
  lemma AtKeptPrefix(r: string, c: string, m: nat, i: nat, p: string)
    requires m <= |r| && m <= |c| && r[..m] == c[..m] && i + |p| <= m
    ensures At(r, i, p) <==> At(c, i, p)
  {
    assert r[i..i + |p|] == r[..m][i..i + |p|];
    assert c[i..i + |p|] == c[..m][i..i + |p|];
  }

  /** An occurrence at the start of a suffix two texts share is an occurrence in both. */
  lemma AtKeptSuffix(r: string, c: string, k: nat, e: nat, p: string)
    requires k <= |r| && e <= |c| && r[k..] == c[e..] && At(c, e, p)
    ensures At(r, k, p)
  {
    assert r[k..k + |p|] == r[k..][..|p|];
    assert c[e..e + |p|] == c[e..][..|p|];
  }

  /** A pattern found in a text is found at the same place in any prefix that holds it. */
  lemma FindInPrefix(s: string, p: string, i: nat, k: nat)
    requires Find(s, p, 0, false) == Some(i) && i + |p| <= k <= |s|
    ensures Find(s[..k], p, 0, false) == Some(i)
  {
    FindLeftmost(s, p, 0, false);
    forall j | 0 <= j < i
      ensures !MatchAt(s[..k], j, p, false)
    {
      assert !MatchAt(s, j, p, false);
      AtInPrefix(s, p, k, j);
    }
    AtInPrefix(s, p, k, i);
    FindAt(s[..k], p, 0, i, false);
  }

  /** A prefix that ends before the first match of a non-empty pattern does not contain it. */
  lemma NotInPrefix(s: string, p: string, i: nat, k: nat)
    requires Find(s, p, 0, false) == Some(i) && k <= i && k <= |s| && p != []
    ensures !Contains(s[..k], p)
  {
    FindLeftmost(s, p, 0, false);
    forall j | 0 <= j
      ensures !MatchAt(s[..k], j, p, false)
    {
      if j + |p| <= k {
        assert j < i && !MatchAt(s, j, p, false);
        AtInPrefix(s, p, k, j);
      }
    }
  }

  /** The first index at or after `from` holding `c`, or `|s|` when there is none. */
  function NextIndex(s: string, c: char, from: nat): (k: nat)
    requires from <= |s|
    ensures from <= k <= |s|
    ensures k < |s| ==> s[k] == c
    ensures forall j :: from <= j < k ==> s[j] != c
    decreases |s| - from
  {
    if from == |s| || s[from] == c then from else NextIndex(s, c, from + 1)
  }

  /** The first `c` at or after `from` is the one `NextIndex` reports. */
  lemma NextIndexAt(s: string, c: char, from: nat, k: nat)
    requires from <= k < |s| && s[k] == c
    requires forall j :: from <= j < k ==> s[j] != c
    ensures NextIndex(s, c, from) == k
  {
  }

  /** In `h + e + rest`, with no `c` in `e` and `rest` opening with `c`, the first `c` after `h`
      closes `e`. */
  lemma NextIndexAfter(h: string, e: string, rest: string, c: char)
    requires c !in e && rest != [] && rest[0] == c
    ensures NextIndex(h + e + rest, c, |h|) == |h| + |e|
    ensures (h + e + rest)[|h|..|h| + |e|] == e
  {
    var s := h + e + rest;
    assert s[|h| + |e|] == c;
    assert forall j :: |h| <= j < |h| + |e| ==> s[j] == e[j - |h|];
    NextIndexAt(s, c, |h|, |h| + |e|);
  }

  /** The first index at or after `from` that is not whitespace, or `|s|` (greedy `\s*`). */
  function SkipSpace(s: string, from: nat): (k: nat)
    requires from <= |s|
    ensures from <= k <= |s|
    ensures k < |s| ==> !IsSpace(s[k])
    ensures AllSpace(s[from..k])
    decreases |s| - from
  {
    if from == |s| || !IsSpace(s[from]) then from else SkipSpace(s, from + 1)
  }

  // ---------------------------------------------------------------- split and join

  /** `sep.join(xs)`. */
  function Join(xs: seq<string>, sep: string): string {
    if |xs| == 0 then "" else if |xs| == 1 then xs[0] else xs[0] + sep + Join(xs[1..], sep)
  }

  lemma NoMatchInPrefix(s: string, sep: string, i: nat)
    requires i <= |s| && sep != []
    requires forall j :: 0 <= j < i ==> !MatchAt(s, j, sep, false)
    ensures forall j :: 0 <= j ==> !MatchAt(s[..i], j, sep, false)
  {
    forall j | 0 <= j && At(s[..i], j, sep)
      ensures false
    {
      assert s[..i][j..j + |sep|] == s[j..j + |sep|];
      assert MatchAt(s, j, sep, false);
    }
  }

  /** `s.split(sep)` (also `re.split` on a literal pattern): the pieces between the
      non-overlapping occurrences of `sep`, found left to right. */
  function Split(s: string, sep: string): (r: seq<string>)
    requires sep != []
    ensures |r| >= 1
    ensures Join(r, sep) == s
    ensures forall k :: 0 <= k < |r| ==> !Contains(r[k], sep)
    decreases |s|
  {
    FindLeftmost(s, sep, 0, false);
    match Find(s, sep, 0, false)
    case None => [s]
    case Some(i) =>
      var rest := Split(s[i + |sep|..], sep);
      NoMatchInPrefix(s, sep, i);
      assert s == s[..i] + sep + s[i + |sep|..];
      [s[..i]] + rest
  }

  /** Text without the separator splits into itself alone. */
  lemma SplitAbsent(s: string, sep: string)
    requires sep != [] && !Contains(s, sep)
    ensures Split(s, sep) == [s]
  {
  }

  /** Splitting joined pieces gives the pieces back when none of them holds the separator's
      first character. */
  lemma {:induction false} SplitJoin(xs: seq<string>, sep: string)
    requires sep != [] && |xs| >= 1
    requires forall k :: 0 <= k < |xs| ==> sep[0] !in xs[k]
    ensures Split(Join(xs, sep), sep) == xs
  {
    var s := Join(xs, sep);
    if |xs| == 1 {
      SplitAbsent(s, sep);
    } else {
      var rest := Join(xs[1..], sep);
      assert s == xs[0] + sep + rest;
      SplitHead(xs[0], sep, rest);
      SplitJoin(xs[1..], sep);
      assert xs == [xs[0]] + xs[1..];
    }
  }

  /** A first piece without the separator's first character is split off whole. */
  lemma SplitHead(x: string, sep: string, rest: string)
    requires sep != [] && sep[0] !in x
    ensures Split(x + sep + rest, sep) == [x] + Split(rest, sep)
  {
    var s := x + sep + rest;
    forall j | 0 <= j < |x|
      ensures s[j] != sep[0]
    {
      assert s[j] == x[j];
    }
    AtPlaced(x, sep, rest);
    FindFirst(s, sep, |x|);
    assert s[..|x|] == x && s[|x| + |sep|..] == rest;
  }

  /** `"".join(xs)`, built from the back as a string grown with `+=` builds it. */
  function Concat(xs: seq<string>): string {
    if xs == [] then "" else Concat(xs[..|xs| - 1]) + xs[|xs| - 1]
  }

  lemma {:induction false} ConcatAppend(a: seq<string>, b: seq<string>)
    ensures Concat(a + b) == Concat(a) + Concat(b)
  {
    if b == [] {
      assert a + b == a;
    } else {
      var init, last := b[..|b| - 1], b[|b| - 1];
      assert (a + b)[..|a + b| - 1] == a + init && (a + b)[|a + b| - 1] == last;
      assert Concat(a + b) == Concat(a + init) + last;
      ConcatAppend(a, init);
      Associative(Concat(a), Concat(init), last);
    }
  }

  lemma Associative(a: string, b: string, c: string)
    ensures (a + b) + c == a + (b + c)
  {
  }

  /** A non-empty list is its front followed by its last element. */
  lemma InitLast<T>(xs: seq<T>)
    requires xs != []
    ensures xs[..|xs| - 1] + [xs[|xs| - 1]] == xs
  {
  }

  /** A slice of a slice is a slice of the whole. */
  lemma DropTwice(s: string, k: nat, m: nat)
    requires k + m <= |s|
    ensures s[k..][m..] == s[k + m..]
  {
  }

  /** The first character of a slice in front of the rest of it is the slice. */
  lemma SliceCons(s: string, k: nat, e: nat, r: string)
    requires k < e <= |s|
    ensures [s[k]] + (s[k + 1..e] + r) == s[k..e] + r
  {
    assert [s[k]] + s[k + 1..e] == s[k..e];
  }

  /** Appending a piece to a text made of a head and some pieces gives the head and one piece
      more. */
  lemma ConcatGrow(text: string, head: string, xs: seq<string>, x: string)
    requires text == head + Concat(xs)
    ensures text + x == head + Concat(xs + [x])
  {
    assert (xs + [x])[..|xs|] == xs;
  }

  /** `[f(x) for x in xs]`, built from the back as a loop that appends would build it. */
  function MapSeq<A, B>(f: A -> B, xs: seq<A>): seq<B>
  {
    if xs == [] then [] else MapSeq(f, xs[..|xs| - 1]) + [f(xs[|xs| - 1])]
  }

  /** The mapped list keeps the length, and its k-th element is `f` of the k-th input. */
  lemma {:induction false} MapSeqAt<A, B>(f: A -> B, xs: seq<A>)
    ensures |MapSeq(f, xs)| == |xs|
    ensures forall k :: 0 <= k < |xs| ==> MapSeq(f, xs)[k] == f(xs[k])
  {
    if xs != [] {
      var init := xs[..|xs| - 1];
      MapSeqAt(f, init);
      assert forall k :: 0 <= k < |init| ==> init[k] == xs[k];
    }
  }

  /** One more element mapped is one more element appended. */
  lemma MapSeqSnoc<A, B>(f: A -> B, xs: seq<A>, i: nat)
    requires i < |xs|
    ensures MapSeq(f, xs[..i + 1]) == MapSeq(f, xs[..i]) + [f(xs[i])]
  {
    assert xs[..i + 1][..i] == xs[..i];
  }

  /** The values `f` gives for the elements of `xs`, each taken with its index, the `None`s
      dropped: what a loop that appends each value it gets builds. */
  function Somes<A, B>(f: (nat, A) -> Option<B>, xs: seq<A>): seq<B>
  {
    if xs == [] then []
    else
      var n := |xs| - 1;
      Somes(f, xs[..n]) + (match f(n, xs[n]) case Some(b) => [b] case None => [])
  }

  /** One element more appends its value when it has one. */
  lemma SomesSnoc<A, B>(f: (nat, A) -> Option<B>, xs: seq<A>, i: nat)
    requires i < |xs|
    ensures Somes(f, xs[..i + 1]) == Somes(f, xs[..i]) + (match f(i, xs[i]) case Some(b) => [b] case None => [])
  {
    assert xs[..i + 1][..i] == xs[..i];
  }

  /** Every value kept is the value of one of the elements, and every value of an element is
      kept. */
  lemma {:induction false} SomesFrom<A, B>(f: (nat, A) -> Option<B>, xs: seq<A>)
    ensures forall b :: b in Somes(f, xs) <==> exists k :: 0 <= k < |xs| && f(k, xs[k]) == Some(b)
  {
    if xs != [] {
      var n := |xs| - 1;
      var init := xs[..n];
      SomesFrom(f, init);
      assert forall k :: 0 <= k < n ==> init[k] == xs[k];
    }
  }

  /** A loop that collects the values `f` gives for the elements of `xs`, in order. */
  method CollectSomes<A, B>(f: (nat, A) -> Option<B>, xs: seq<A>) returns (ys: seq<B>)
    ensures ys == Somes(f, xs)
  {
    ys := [];
    var i := 0;
    while i < |xs|
      invariant i <= |xs|
      invariant ys == Somes(f, xs[..i])
    {
      SomesSnoc(f, xs, i);
      var value := f(i, xs[i]);
      if value.Some? {
        ys := ys + [value.value];
      }
      i := i + 1;
    }
    assert xs[..i] == xs;
  }

  /** The text `f` makes of the first `n` elements, appended one after the other, as a loop that
      grows a string with `+=` builds it. */
  function Rows<A>(f: A -> string, xs: seq<A>, n: nat): string
    requires n <= |xs|
  {
    if n == 0 then "" else Rows(f, xs, n - 1) + f(xs[n - 1])
  }

  /** One element more is its text appended. */
  lemma RowsAppend<A>(head: string, f: A -> string, xs: seq<A>, i: nat, text: string, row: string)
    requires i < |xs| && text == head + Rows(f, xs, i) && row == f(xs[i])
    ensures text + row == head + Rows(f, xs, i + 1)
  {
  }

  /** A loop that appends the text of each element in turn to `head`. */
  method AppendRows<A>(head: string, f: A -> string, xs: seq<A>) returns (text: string)
    ensures text == head + Rows(f, xs, |xs|)
  {
    text := head;
    var i := 0;
    while i < |xs|
      invariant i <= |xs|
      invariant text == head + Rows(f, xs, i)
    {
      var row := f(xs[i]);
      RowsAppend(head, f, xs, i, text, row);
      text := text + row;
      i := i + 1;
    }
  }

  /** The text of all the elements is the concatenation of the mapped list. */
  lemma {:induction false} RowsConcat<A>(f: A -> string, xs: seq<A>, n: nat)
    requires n <= |xs|
    ensures Rows(f, xs, n) == Concat(MapSeq(f, xs[..n]))
  {
    if n > 0 {
      RowsConcat(f, xs, n - 1);
      MapSeqSnoc(f, xs, n - 1);
    }
  }

  /** A text made of a head, the pieces of one list, a separator, the pieces of a second list
      and a foot is the head, the concatenated list of all the pieces and the foot. */
  lemma Sections<A, B>(head: string, f: A -> string, xs: seq<A>, sep: string, g: B -> string, ys: seq<B>, foot: string)
    ensures head + Rows(f, xs, |xs|) + sep + Rows(g, ys, |ys|) + foot
      == head + Concat(MapSeq(f, xs) + [sep] + MapSeq(g, ys)) + foot
  {
    var a, b := MapSeq(f, xs), MapSeq(g, ys);
    RowsConcat(f, xs, |xs|);
    RowsConcat(g, ys, |ys|);
    assert xs[..|xs|] == xs;
    assert ys[..|ys|] == ys;
    ConcatAppend(a + [sep], b);
    ConcatAppend(a, [sep]);
    assert Concat([sep]) == sep by {
      assert [sep][..0] == [];
    }
    var x, y := Concat(a), Concat(b);
    assert Concat(a + [sep] + b) == x + sep + y;
    Associative(head, x, sep);
    Associative(head, x + sep, y);
  }

  /** Where each piece sits in the list of all the pieces. */
  lemma SectionsAt<A, B>(f: A -> string, xs: seq<A>, sep: string, g: B -> string, ys: seq<B>)
    ensures var all := MapSeq(f, xs) + [sep] + MapSeq(g, ys);
      && |all| == |xs| + 1 + |ys|
      && (forall i :: 0 <= i < |xs| ==> all[i] == f(xs[i]))
      && all[|xs|] == sep
      && (forall c :: 0 <= c < |ys| ==> all[|xs| + 1 + c] == g(ys[c]))
  {
    MapSeqAt(f, xs);
    MapSeqAt(g, ys);
  }

  // ---------------------------------------------------------------- replace

  /** `s.replace(c, rep)` for a one-character pattern, the only kind the scripts replace. */
  function ReplaceChar(s: string, c: char, rep: string): string {
    if s == [] then [] else (if s[0] == c then rep else [s[0]]) + ReplaceChar(s[1..], c, rep)
  }

  lemma {:induction false} ReplaceCharAppend(a: string, b: string, c: char, rep: string)
    ensures ReplaceChar(a + b, c, rep) == ReplaceChar(a, c, rep) + ReplaceChar(b, c, rep)
  {
    if a != [] {
      assert (a + b)[1..] == a[1..] + b;
      ReplaceCharAppend(a[1..], b, c, rep);
    } else {
      assert a + b == b;
    }
  }

  lemma {:induction false} ReplaceCharAbsent(s: string, c: char, rep: string)
    requires c !in s
    ensures ReplaceChar(s, c, rep) == s
  {
    if s != [] {
      ReplaceCharAbsent(s[1..], c, rep);
    }
  }

  // ---------------------------------------------------------------- numbers

  predicate IsDigit(c: char) {
    '0' <= c <= '9'
  }

  predicate AllDigits(s: string) {
    forall k :: 0 <= k < |s| ==> IsDigit(s[k])
  }

  function DigitChar(d: nat): (c: char)
    requires d < 10
    ensures IsDigit(c) && c as int - '0' as int == d
  {
    ('0' as int + d) as char
  }

  /** `int(s)` for a string of ASCII digits. */
  function DigitsValue(s: string): nat
    requires AllDigits(s)
  {
    if s == [] then 0 else DigitsValue(s[..|s| - 1]) * 10 + (s[|s| - 1] as int - '0' as int)
  }

  /** `str(n)` for a count. */
  function NatToString(n: nat): (r: string)
    ensures |r| >= 1 && AllDigits(r)
  {
    if n < 10 then [DigitChar(n)] else NatToString(n / 10) + [DigitChar(n % 10)]
  }

  /** Reading a formatted count back gives the count. */
  lemma {:induction false} NatToStringRoundTrip(n: nat)
    ensures DigitsValue(NatToString(n)) == n
  {
    var r := NatToString(n);
    if n >= 10 {
      NatToStringRoundTrip(n / 10);
      assert r[..|r| - 1] == NatToString(n / 10);
    }
  }
}
