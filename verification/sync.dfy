/** `sync_decisions`, identical in both scripts: every markdown decision is looked up by title
    among the decisions already on the page and classified as added, updated or unchanged; the
    page decisions whose title the markdown does not use are kept after them. */
module Sync {
  import opened Text
  import opened Decisions

  /** The `SyncResult` dataclass (`added`, `updated`, `unchanged`, `removed`, `errors`): the
      titles in each bucket, in markdown order. `removed` and `errors` are never filled by the
      reconciler. */
  datatype SyncResult = SyncResult(
    addedTitles: seq<string>,
    updatedTitles: seq<string>,
    unchangedTitles: seq<string>,
    removedTitles: seq<string>,
    errors: seq<string>)

  /** The titles of a list of decisions, in order. */
  function Titles(ds: seq<Decision>): (r: seq<string>)
    ensures |r| == |ds|
    ensures forall k :: 0 <= k < |ds| ==> r[k] == ds[k].title
  {
    if ds == [] then [] else Titles(ds[..|ds| - 1]) + [ds[|ds| - 1].title]
  }

  /** `{d.title: d for d in ds}`: a later decision with the same title replaces an earlier one. */
  function ByTitle(ds: seq<Decision>): (r: map<string, Decision>)
    ensures forall t :: t in r <==> t in Titles(ds)
    ensures forall t :: t in r ==> r[t].title == t && r[t] in ds
  {
    if ds == [] then map[]
    else
      var init := ds[..|ds| - 1];
      var last := ds[|ds| - 1];
      var m := ByTitle(init);
      assert Titles(ds) == Titles(init) + [last.title];
      assert forall d :: d in init ==> d in ds;
      m[last.title := last]
  }

  /** The dictionary keeps the last decision of each title. */
  lemma {:induction false} ByTitleLast(ds: seq<Decision>, k: nat)
    requires k < |ds|
    requires forall j :: k < j < |ds| ==> ds[j].title != ds[k].title
    ensures ds[k].title in ByTitle(ds) && ByTitle(ds)[ds[k].title] == ds[k]
  {
    if k < |ds| - 1 {
      var init := ds[..|ds| - 1];
      assert init[k] == ds[k];
      ByTitleLast(init, k);
    }
  }

  datatype Outcome = Added | Updated | Unchanged

  /** The bucket a markdown decision lands in, given the page decisions by title. */
  function Classify(d: Decision, remote: map<string, Decision>): Outcome {
    if d.title !in remote then Added
    else if d.hashId != remote[d.title].hashId then Updated
    else Unchanged
  }

  /** The entry a markdown decision contributes to the merged list: itself, untouched, when new;
      itself with `now` as its update date and nothing else changed when its hash differs from
      the page's; and the page's decision when the hashes agree. Whichever it is, it carries the
      markdown hash. */
  function Resolve(d: Decision, remote: map<string, Decision>, now: string): (r: Decision)
    ensures r.hashId == d.hashId
    ensures Classify(d, remote) == Added ==> r == d
    ensures Classify(d, remote) == Updated ==> r == d.(dateUpdated := Some(now))
    ensures Classify(d, remote) == Unchanged ==> r == remote[d.title]
  {
    match Classify(d, remote)
    case Added => d
    case Updated => d.(dateUpdated := Some(now))
    case Unchanged => remote[d.title]
  }

  /** The entries of the markdown decisions, one each, in markdown order. */
  function Resolved(md: seq<Decision>, remote: map<string, Decision>, now: string): (r: seq<Decision>)
    ensures |r| == |md|
    ensures forall k :: 0 <= k < |md| ==> r[k] == Resolve(md[k], remote, now)
  {
    if md == [] then []
    else Resolved(md[..|md| - 1], remote, now) + [Resolve(md[|md| - 1], remote, now)]
  }

  /** The titles of the markdown decisions classified as `o`, in markdown order. */
  function Bucket(md: seq<Decision>, remote: map<string, Decision>, o: Outcome): seq<string> {
    if md == [] then []
    else
      var last := md[|md| - 1];
      Bucket(md[..|md| - 1], remote, o) + (if Classify(last, remote) == o then [last.title] else [])
  }

  /** The page decisions whose title is not among `titles`, in page order. */
  function RemoteOnly(conf: seq<Decision>, titles: seq<string>): seq<Decision> {
    if conf == [] then []
    else
      var last := conf[|conf| - 1];
      RemoteOnly(conf[..|conf| - 1], titles) + (if last.title !in titles then [last] else [])
  }

  /** The merged list: one entry per markdown decision, then the page-only decisions. */
  function Merged(md: seq<Decision>, conf: seq<Decision>, now: string): seq<Decision> {
    Resolved(md, ByTitle(conf), now) + RemoteOnly(conf, Titles(md))
  }

  /** The buckets the reconciler reports. */
  function Summary(md: seq<Decision>, conf: seq<Decision>): SyncResult {
    var remote := ByTitle(conf);
    SyncResult(Bucket(md, remote, Added), Bucket(md, remote, Updated), Bucket(md, remote, Unchanged), [], [])
  }

  /** One more markdown decision resolved and classified. */
  lemma ResolvedSnoc(md: seq<Decision>, i: nat, remote: map<string, Decision>, now: string)
    requires i < |md|
    ensures Resolved(md[..i + 1], remote, now) == Resolved(md[..i], remote, now) + [Resolve(md[i], remote, now)]
    ensures forall o :: (Bucket(md[..i + 1], remote, o)
      == Bucket(md[..i], remote, o) + (if Classify(md[i], remote) == o then [md[i].title] else []))
  {
    assert md[..i + 1][..i] == md[..i];
  }

  /** One more page decision considered for the page-only part. */
  lemma RemoteOnlySnoc(conf: seq<Decision>, j: nat, titles: seq<string>)
    requires j < |conf|
    ensures RemoteOnly(conf[..j + 1], titles)
      == RemoteOnly(conf[..j], titles) + (if conf[j].title !in titles then [conf[j]] else [])
  {
    assert conf[..j + 1][..j] == conf[..j];
  }

  /** The loop of `sync_decisions` over the markdown decisions. */
  method ResolveMarkdown(md: seq<Decision>, confByTitle: map<string, Decision>, now: string)
    returns (final: seq<Decision>, added: seq<string>, updated: seq<string>, unchangedT: seq<string>)
    ensures final == Resolved(md, confByTitle, now)
    ensures added == Bucket(md, confByTitle, Added)
    ensures updated == Bucket(md, confByTitle, Updated)
    ensures unchangedT == Bucket(md, confByTitle, Unchanged)
  {
    final, added, updated, unchangedT := [], [], [], [];
    var i := 0;
    while i < |md|
      invariant 0 <= i <= |md|
      invariant final == Resolved(md[..i], confByTitle, now)
      invariant added == Bucket(md[..i], confByTitle, Added)
      invariant updated == Bucket(md[..i], confByTitle, Updated)
      invariant unchangedT == Bucket(md[..i], confByTitle, Unchanged)
    {
      var d := md[i];
      ResolvedSnoc(md, i, confByTitle, now);
      if d.title in confByTitle {
        var c := confByTitle[d.title];
        if d.hashId != c.hashId {
          final := final + [d.(dateUpdated := Some(now))];
          updated := updated + [d.title];
        } else {
          final := final + [c];
          unchangedT := unchangedT + [d.title];
        }
      } else {
        final := final + [d];
        added := added + [d.title];
      }
      i := i + 1;
    }
    assert md[..i] == md;
  }

  /** The loop of `sync_decisions` over the page decisions, appending those whose title is not a
      key of `mdByTitle`. */
  method AppendRemoteOnly(head: seq<Decision>, conf: seq<Decision>, mdByTitle: map<string, Decision>,
                          ghost titles: seq<string>)
    returns (final: seq<Decision>)
    requires forall t :: t in mdByTitle <==> t in titles
    ensures final == head + RemoteOnly(conf, titles)
  {
    final := head;
    var j := 0;
    while j < |conf|
      invariant 0 <= j <= |conf|
      invariant final == head + RemoteOnly(conf[..j], titles)
    {
      var c := conf[j];
      RemoteOnlySnoc(conf, j, titles);
      if c.title !in mdByTitle {
        final := final + [c];
      }
      j := j + 1;
    }
    assert conf[..j] == conf;
  }

  /** `sync_decisions`: the markdown loop fills the merged list and the buckets, the page loop
      appends the page-only decisions. */
  method SyncDecisions(md: seq<Decision>, conf: seq<Decision>, now: string)
    returns (final: seq<Decision>, result: SyncResult)
    ensures final == Merged(md, conf, now)
    ensures result == Summary(md, conf)
  {
    var mdByTitle := ByTitle(md);
    var confByTitle := ByTitle(conf);
    var added, updated, unchangedT;
    final, added, updated, unchangedT := ResolveMarkdown(md, confByTitle, now);
    final := AppendRemoteOnly(final, conf, mdByTitle, Titles(md));
    result := SyncResult(added, updated, unchangedT, [], []);
  }

  // ================================================================ properties

  /** Every markdown decision lands in exactly one bucket: the three buckets together hold the
      markdown titles, each as often as it occurs. */
  lemma {:induction false} BucketsPartition(md: seq<Decision>, remote: map<string, Decision>)
    ensures multiset(Bucket(md, remote, Added)) + multiset(Bucket(md, remote, Updated))
            + multiset(Bucket(md, remote, Unchanged)) == multiset(Titles(md))
    ensures |Bucket(md, remote, Added)| + |Bucket(md, remote, Updated)| + |Bucket(md, remote, Unchanged)| == |md|
  {
    if md != [] {
      var init := md[..|md| - 1];
      var t := md[|md| - 1].title;
      BucketsPartition(init, remote);
      assert Titles(md) == Titles(init) + [t];
      BucketStep(md, remote);
      PartitionStep(Bucket(init, remote, Added), Bucket(init, remote, Updated), Bucket(init, remote, Unchanged),
                    Bucket(md, remote, Added), Bucket(md, remote, Updated), Bucket(md, remote, Unchanged),
                    Titles(init), t);
    }
  }

  /** The last markdown decision goes to its own bucket and leaves the other two as they were. */
  lemma BucketStep(md: seq<Decision>, remote: map<string, Decision>)
    requires md != []
    ensures var init, t := md[..|md| - 1], md[|md| - 1].title;
      var a, u, n := Bucket(init, remote, Added), Bucket(init, remote, Updated), Bucket(init, remote, Unchanged);
      var a', u', n' := Bucket(md, remote, Added), Bucket(md, remote, Updated), Bucket(md, remote, Unchanged);
      (a' == a + [t] && u' == u && n' == n) || (a' == a && u' == u + [t] && n' == n)
      || (a' == a && u' == u && n' == n + [t])
  {
  }

  /** Putting one more title into one of three buckets keeps them a partition of the titles. */
  lemma PartitionStep(a: seq<string>, u: seq<string>, n: seq<string>,
                      a': seq<string>, u': seq<string>, n': seq<string>, ts: seq<string>, t: string)
    requires multiset(a) + multiset(u) + multiset(n) == multiset(ts)
    requires |a| + |u| + |n| == |ts|
    requires (a' == a + [t] && u' == u && n' == n) || (a' == a && u' == u + [t] && n' == n)
             || (a' == a && u' == u && n' == n + [t])
    ensures multiset(a') + multiset(u') + multiset(n') == multiset(ts + [t])
    ensures |a'| + |u'| + |n'| == |ts + [t]|
  {
    assert multiset(ts + [t]) == multiset(ts) + multiset{t};
    if a' == a + [t] {
      assert multiset(a') == multiset(a) + multiset{t};
    } else if u' == u + [t] {
      assert multiset(u') == multiset(u) + multiset{t};
    } else {
      assert multiset(n') == multiset(n) + multiset{t};
    }
  }

  /** A title is in bucket `o` exactly when some markdown decision with that title is
      classified as `o`. */
  lemma {:induction false} BucketMembers(md: seq<Decision>, remote: map<string, Decision>, o: Outcome, t: string)
    ensures t in Bucket(md, remote, o) <==> exists k :: 0 <= k < |md| && md[k].title == t && Classify(md[k], remote) == o
  {
    if md != [] {
      var init := md[..|md| - 1];
      BucketMembers(init, remote, o, t);
      assert forall k :: 0 <= k < |init| ==> init[k] == md[k];
    }
  }

  /** The page-only part holds exactly the page decisions whose title is not among `titles`. */
  lemma {:induction false} RemoteOnlyMembers(conf: seq<Decision>, titles: seq<string>, d: Decision)
    ensures d in RemoteOnly(conf, titles) <==> d in conf && d.title !in titles
  {
    if conf != [] {
      var init := conf[..|conf| - 1];
      RemoteOnlyMembers(init, titles, d);
      assert conf == init + [conf[|conf| - 1]];
    }
  }

  /** The page-only part of a page is that of its first half followed by that of its second:
      the page order is kept. */
  lemma {:induction false} RemoteOnlyAppend(a: seq<Decision>, b: seq<Decision>, titles: seq<string>)
    ensures RemoteOnly(a + b, titles) == RemoteOnly(a, titles) + RemoteOnly(b, titles)
  {
    if b != [] {
      var init := b[..|b| - 1];
      RemoteOnlyAppend(a, init, titles);
      assert (a + b)[..|a + b| - 1] == a + init;
    } else {
      assert a + b == a;
    }
  }

  /** The page-only decisions are reported in no bucket. */
  lemma RemoteOnlyUnreported(md: seq<Decision>, conf: seq<Decision>, d: Decision, o: Outcome)
    requires d in RemoteOnly(conf, Titles(md))
    ensures d.title !in Bucket(md, ByTitle(conf), o)
  {
    RemoteOnlyMembers(conf, Titles(md), d);
    BucketMembers(md, ByTitle(conf), o, d.title);
  }

  /** Against an empty page every markdown decision is added and the merged list is the
      markdown list. */
  lemma {:induction false} SyncAgainstEmptyPage(md: seq<Decision>, now: string)
    ensures Merged(md, [], now) == md
    ensures Summary(md, []) == SyncResult(Titles(md), [], [], [], [])
  {
    AllAdded(md, now);
  }

  lemma AllAdded(md: seq<Decision>, now: string)
    ensures Resolved(md, map[], now) == md
    ensures Bucket(md, map[], Added) == Titles(md)
    ensures Bucket(md, map[], Updated) == [] && Bucket(md, map[], Unchanged) == []
  {
    forall k | 0 <= k < |md|
      ensures Resolved(md, map[], now)[k] == md[k]
    {
      assert Classify(md[k], map[]) == Added;
    }
    AddedBuckets(md);
  }

  /** Against an empty page every title lands in the added bucket. */
  lemma {:induction false} AddedBuckets(md: seq<Decision>)
    ensures Bucket(md, map[], Added) == Titles(md)
    ensures Bucket(md, map[], Updated) == [] && Bucket(md, map[], Unchanged) == []
  {
    if md != [] {
      AddedBuckets(md[..|md| - 1]);
    }
  }

  /** Syncing a list of decisions with distinct titles against a page holding exactly that list
      changes nothing: every decision is unchanged and the merged list is the page list. */
  lemma SyncAgainstItself(ds: seq<Decision>, now: string)
    requires forall j, k :: 0 <= j < k < |ds| ==> ds[j].title != ds[k].title
    ensures Merged(ds, ds, now) == ds
    ensures Summary(ds, ds) == SyncResult([], [], Titles(ds), [], [])
  {
    var remote := ByTitle(ds);
    forall k | 0 <= k < |ds|
      ensures Classify(ds[k], remote) == Unchanged && Resolve(ds[k], remote, now) == ds[k]
    {
      ByTitleLast(ds, k);
    }
    AllUnchanged(ds, remote, now);
    forall d | d in ds
      ensures d.title in Titles(ds)
    {
      var k :| 0 <= k < |ds| && ds[k] == d;
    }
    NoneRemoteOnly(ds, Titles(ds));
  }

  lemma AllUnchanged(md: seq<Decision>, remote: map<string, Decision>, now: string)
    requires forall k :: 0 <= k < |md| ==> Classify(md[k], remote) == Unchanged && Resolve(md[k], remote, now) == md[k]
    ensures Resolved(md, remote, now) == md
    ensures Bucket(md, remote, Unchanged) == Titles(md)
    ensures Bucket(md, remote, Added) == [] && Bucket(md, remote, Updated) == []
  {
    forall k | 0 <= k < |md|
      ensures Resolved(md, remote, now)[k] == md[k]
    {
    }
    UnchangedBuckets(md, remote);
  }

  /** When every markdown decision is unchanged, every title lands in the unchanged bucket. */
  lemma {:induction false} UnchangedBuckets(md: seq<Decision>, remote: map<string, Decision>)
    requires forall k :: 0 <= k < |md| ==> Classify(md[k], remote) == Unchanged
    ensures Bucket(md, remote, Unchanged) == Titles(md)
    ensures Bucket(md, remote, Added) == [] && Bucket(md, remote, Updated) == []
  {
    if md != [] {
      var init := md[..|md| - 1];
      assert forall k :: 0 <= k < |init| ==> init[k] == md[k];
      UnchangedBuckets(init, remote);
    }
  }

  lemma {:induction false} NoneRemoteOnly(conf: seq<Decision>, titles: seq<string>)
    requires forall d :: d in conf ==> d.title in titles
    ensures RemoteOnly(conf, titles) == []
  {
    if conf != [] {
      var init := conf[..|conf| - 1];
      assert forall d :: d in init ==> d in conf;
      NoneRemoteOnly(init, titles);
    }
  }

  /** The three counts a summary shows, each written in decimal and read back, add up to the
      number of markdown decisions. */
  lemma SummaryCounts(md: seq<Decision>, conf: seq<Decision>)
    ensures var r := Summary(md, conf);
      DigitsValue(NatToString(|r.addedTitles|)) + DigitsValue(NatToString(|r.updatedTitles|))
      + DigitsValue(NatToString(|r.unchangedTitles|)) == |md|
  {
    var r := Summary(md, conf);
    BucketsPartition(md, ByTitle(conf));
    NatToStringRoundTrip(|r.addedTitles|);
    NatToStringRoundTrip(|r.updatedTitles|);
    NatToStringRoundTrip(|r.unchangedTitles|);
  }
}
