/** The network-response observer of `extract_video_urls`
    (whop_downloader.py:108-121): it recognises Mux stream manifests,
    extracts the video id from the URL and records the first URL seen for
    each id in an insertion-ordered dictionary. */
module Observer {
  import opened Strings

  const StreamHost := "stream.mux.com"
  const ManifestExt := ".m3u8"

  /** URLs the observer reacts to: they name the Mux host and a manifest. */
  predicate IsStreamManifest(url: string) {
    Contains(url, StreamHost) && Contains(url, ManifestExt)
  }

  /** `url.split('/')[-1].split('.m3u8')[0].split('?')[0]`. */
  function VideoId(url: string): (id: string)
    ensures '/' !in id && '?' !in id && !Contains(id, ManifestExt)
    ensures |id| <= |LastSegment(url)| && id == LastSegment(url)[..|id|]
  {
    var segment := LastSegment(url);
    StemFacts(segment);
    BeforeFirst(BeforeFirst(segment, ManifestExt), "?")
  }

  /** What the two `split(...)[0]` steps leave of a path segment: a prefix
      of it with neither `?` nor `.m3u8` in it. */
  lemma StemFacts(segment: string)
    ensures var id := BeforeFirst(BeforeFirst(segment, ManifestExt), "?");
      '?' !in id && !Contains(id, ManifestExt) && id == segment[..|id|]
  {
    var stem := BeforeFirst(segment, ManifestExt);
    var id := BeforeFirst(stem, "?");
    BeforeFirstExcludes(stem, "?");
    BeforeFirstExcludes(segment, ManifestExt);
    PrefixExcludes(stem, |id|, ManifestExt);
    NoCharOccurrence(id, '?');
  }

  lemma NoCharOccurrence(s: string, c: char)
    requires !Contains(s, [c])
    ensures c !in s
  {
    forall i | 0 <= i < |s| ensures s[i] != c {
      OccursAtChar(s, c, i);
    }
  }

  /** The contents of the dictionary `all_video_urls`, in insertion order. */
  type Entries = seq<(string, string)>

  function Keys(e: Entries): (ks: seq<string>)
    ensures |ks| == |e| && forall i :: 0 <= i < |e| ==> ks[i] == e[i].0
  {
    seq(|e|, i requires 0 <= i < |e| => e[i].0)
  }

  predicate Distinct(s: seq<string>) {
    forall i, j :: 0 <= i < j < |s| ==> s[i] != s[j]
  }

  /** Every entry maps the id of a stream manifest to that manifest. */
  predicate WellFormed(e: Entries) {
    forall k :: 0 <= k < |e| ==> IsStreamManifest(e[k].1) && VideoId(e[k].1) == e[k].0
  }

  /** The dictionary after `handle_response` has seen one response URL. */
  function Observe(e: Entries, url: string): Entries {
    if !IsStreamManifest(url) then e
    else
      var id := VideoId(url);
      if id in Keys(e) then e else e + [(id, url)]
  }

  /** The dictionary after the observer has seen `urls`, in order. */
  function ObserveAll(e: Entries, urls: seq<string>): Entries
    decreases |urls|
  {
    if urls == [] then e else ObserveAll(Observe(e, urls[0]), urls[1..])
  }

  /** The ids of the stream manifests among `urls`. */
  function ManifestIds(urls: seq<string>): set<string> {
    set u | u in urls && IsStreamManifest(u) :: VideoId(u)
  }

  lemma KeysAppend(e: Entries, p: (string, string))
    ensures Keys(e + [p]) == Keys(e) + [p.0]
  {
  }

  /** Only a response naming both `stream.mux.com` and `.m3u8` changes the
      dictionary; a known id leaves it unchanged (its first URL is kept);
      a new id is appended at the end, so the size grows by exactly one. */
  lemma ObserveCases(e: Entries, url: string)
    ensures !IsStreamManifest(url) ==> Observe(e, url) == e
    ensures IsStreamManifest(url) && VideoId(url) in Keys(e) ==> Observe(e, url) == e
    ensures IsStreamManifest(url) && VideoId(url) !in Keys(e) ==>
      Observe(e, url) == e + [(VideoId(url), url)] && |Observe(e, url)| == |e| + 1
  {
  }

  /** Observing keeps the ids distinct and the entries well formed. */
  lemma ObservePreserves(e: Entries, url: string)
    requires Distinct(Keys(e)) && WellFormed(e)
    ensures Distinct(Keys(Observe(e, url))) && WellFormed(Observe(e, url))
  {
    if IsStreamManifest(url) && VideoId(url) !in Keys(e) {
      KeysAppend(e, (VideoId(url), url));
    }
  }

  /** Seeing the same response twice in a row is the same as seeing it once. */
  lemma ObserveIdempotent(e: Entries, url: string)
    ensures Observe(Observe(e, url), url) == Observe(e, url)
  {
    if IsStreamManifest(url) && VideoId(url) !in Keys(e) {
      KeysAppend(e, (VideoId(url), url));
    }
  }

  lemma {:induction false} ObserveAllAppend(e: Entries, urls: seq<string>, url: string)
    ensures ObserveAll(e, urls + [url]) == Observe(ObserveAll(e, urls), url)
    decreases |urls|
  {
    if urls == [] {
      assert [url][1..] == [];
    } else {
      assert (urls + [url])[1..] == urls[1..] + [url];
      ObserveAllAppend(Observe(e, urls[0]), urls[1..], url);
    }
  }

  /** Entries are never removed, reordered or overwritten: what was there
      stays a prefix, and each new entry comes from a manifest in `urls`. */
  lemma {:induction false} ObserveAllExtends(e: Entries, urls: seq<string>)
    ensures |e| <= |ObserveAll(e, urls)| <= |e| + |urls|
    ensures ObserveAll(e, urls)[..|e|] == e
    ensures forall k :: |e| <= k < |ObserveAll(e, urls)| ==> ObserveAll(e, urls)[k].1 in urls
    decreases |urls|
  {
    if urls != [] {
      var e1 := Observe(e, urls[0]);
      ObserveAllExtends(e1, urls[1..]);
      var r := ObserveAll(e, urls);
      assert r == ObserveAll(e1, urls[1..]);
      assert r[..|e|] == r[..|e1|][..|e|];
      forall k | |e| <= k < |r|
        ensures r[k].1 in urls
      {
        if k >= |e1| {
          assert r[k].1 in urls[1..];
        } else {
          assert r[k] == e1[k];
        }
      }
    }
  }

  lemma {:induction false} ObserveAllConcat(e: Entries, urls: seq<string>, more: seq<string>)
    ensures ObserveAll(e, urls + more) == ObserveAll(ObserveAll(e, urls), more)
    decreases |urls|
  {
    if urls != [] {
      assert (urls + more)[1..] == urls[1..] + more;
      ObserveAllConcat(Observe(e, urls[0]), urls[1..], more);
    } else {
      assert urls + more == more;
    }
  }

  /** The number of captured streams never decreases as responses keep
      arriving, which is what the pager observes from one attempt to the
      next. */
  lemma CaptureCountGrows(urls: seq<string>, more: seq<string>)
    ensures |ObserveAll([], urls)| <= |ObserveAll([], urls + more)|
  {
    ObserveAllConcat([], urls, more);
    ObserveAllExtends(ObserveAll([], urls), more);
  }

  /** The observer keeps the ids distinct and the entries well formed,
      whatever sequence of responses it sees. */
  lemma {:induction false} ObserveAllPreserves(e: Entries, urls: seq<string>)
    requires Distinct(Keys(e)) && WellFormed(e)
    ensures Distinct(Keys(ObserveAll(e, urls))) && WellFormed(ObserveAll(e, urls))
    decreases |urls|
  {
    if urls != [] {
      ObservePreserves(e, urls[0]);
      ObserveAllPreserves(Observe(e, urls[0]), urls[1..]);
    }
  }

  /** The ids captured are exactly the ids already there plus the ids of
      the stream manifests seen. */
  lemma {:induction false} ObserveAllKeys(e: Entries, urls: seq<string>, id: string)
    ensures id in Keys(ObserveAll(e, urls)) <==> id in Keys(e) || id in ManifestIds(urls)
    decreases |urls|
  {
    if urls != [] {
      var u := urls[0];
      var e1 := Observe(e, u);
      ObserveAllKeys(e1, urls[1..], id);
      assert ManifestIds(urls) == ManifestIds([u]) + ManifestIds(urls[1..]) by {
        assert urls == [u] + urls[1..];
      }
      if IsStreamManifest(u) && VideoId(u) !in Keys(e) {
        KeysAppend(e, (VideoId(u), u));
      }
    }
  }

  /** Redelivering a response that was already seen changes nothing. */
  lemma Redelivery(e: Entries, urls: seq<string>, url: string)
    requires url in urls
    ensures ObserveAll(e, urls + [url]) == ObserveAll(e, urls)
  {
    ObserveAllAppend(e, urls, url);
    if IsStreamManifest(url) {
      ObserveAllKeys(e, urls, VideoId(url));
    }
  }

  lemma {:induction false} DistinctCard(s: seq<string>)
    requires Distinct(s)
    ensures |set x | x in s| == |s|
  {
    if s != [] {
      var t := s[..|s| - 1];
      DistinctCard(t);
      assert (set x | x in s) == (set x | x in t) + {s[|s| - 1]} by {
        assert s == t + [s[|s| - 1]];
      }
    }
  }

  /** Starting from an empty dictionary, the number of captured streams is
      the number of distinct manifest ids seen, duplicates counted once. */
  lemma CaptureCount(urls: seq<string>)
    ensures |ObserveAll([], urls)| == |ManifestIds(urls)|
  {
    var r := ObserveAll([], urls);
    ObserveAllPreserves([], urls);
    DistinctCard(Keys(r));
    forall id
      ensures id in (set x | x in Keys(r)) <==> id in ManifestIds(urls)
    {
      ObserveAllKeys([], urls, id);
    }
    assert (set x | x in Keys(r)) == ManifestIds(urls);
  }

  /** A manifest URL whose last path segment is an alphanumeric id followed
      by `.m3u8` and an optional query yields exactly that id. */
  lemma VideoIdOfManifest(base: string, id: string, query: string)
    requires forall i :: 0 <= i < |id| ==> IsAlnum(id[i])
    requires '/' !in query
    ensures VideoId(base + "/" + id + ManifestExt + query) == id
  {
    var rest := ManifestExt + query;
    var tail := id + rest;
    var url := base + "/" + id + ManifestExt + query;
    assert url == base + "/" + tail;
    assert '/' !in tail by {
      assert '/' !in id;
      assert '/' !in ManifestExt;
    }
    LastSegmentAfterSlash(base, tail);
    assert LastSegment(url) == tail;
    assert StartsWith(rest, ManifestExt) by {
      assert rest[..|ManifestExt|] == ManifestExt;
    }
    BeforeFirstAlnum(id, rest, ManifestExt);
    assert BeforeFirst(tail, ManifestExt) == id;
    BeforeFirstAlnum(id, [], "?");
    assert id + [] == id;
    assert BeforeFirst(id, "?") == id;
  }

  lemma {:induction false} LastSegmentAfterSlash(base: string, tail: string)
    requires '/' !in tail
    ensures LastSegment(base + "/" + tail) == tail
  {
    var s := base + "/" + tail;
    if tail != [] {
      var init := tail[..|tail| - 1];
      assert s[..|s| - 1] == base + "/" + init;
      assert '/' !in init by {
        assert forall i :: 0 <= i < |init| ==> init[i] == tail[i];
      }
      LastSegmentAfterSlash(base, init);
      assert tail == init + [tail[|tail| - 1]];
    }
  }

  /** Splitting `id + rest` on a separator that starts with a
      non-alphanumeric character, where `rest` starts with the separator
      (or is empty), gives back `id`. */
  lemma {:induction false} BeforeFirstAlnum(id: string, rest: string, sep: string)
    requires sep != [] && !IsAlnum(sep[0])
    requires forall i :: 0 <= i < |id| ==> IsAlnum(id[i])
    requires rest == [] || StartsWith(rest, sep)
    ensures BeforeFirst(id + rest, sep) == id
  {
    if id != [] {
      var s := id + rest;
      assert !StartsWith(s, sep) by {
        assert s[0] == id[0];
      }
      assert s[1..] == id[1..] + rest;
      BeforeFirstAlnum(id[1..], rest, sep);
    } else {
      assert id + rest == rest;
    }
  }

  /** Two manifests with different ids, the first delivered twice: two
      entries, in order of first delivery, each with its first URL. */
  lemma {:induction false} DuplicateDelivery(a: string, b: string)
    requires IsStreamManifest(a) && IsStreamManifest(b) && VideoId(a) != VideoId(b)
    ensures ObserveAll([], [a, b, a]) == [(VideoId(a), a), (VideoId(b), b)]
  {
    var e1 := Observe([], a);
    ObserveCases([], a);
    assert e1 == [(VideoId(a), a)];
    var e2 := Observe(e1, b);
    ObserveCases(e1, b);
    assert Keys(e1) == [VideoId(a)];
    assert e2 == e1 + [(VideoId(b), b)];
    KeysAppend(e1, (VideoId(b), b));
    assert VideoId(a) in Keys(e2);
    ObserveCases(e2, a);
    assert ObserveAll([], [a, b, a]) == ObserveAll(e1, [b, a]) by {
      assert [a, b, a][1..] == [b, a];
    }
    assert ObserveAll(e1, [b, a]) == ObserveAll(e2, [a]) by {
      assert [b, a][1..] == [a];
    }
    assert ObserveAll(e2, [a]) == ObserveAll(e2, []);
  }

  /** The example streams `abc123`, `def456`, `abc123`: two captures. */
  lemma DuplicateExample()
    ensures ObserveAll([], [Example("abc123"), Example("def456"), Example("abc123")])
         == [("abc123", Example("abc123")), ("def456", Example("def456"))]
  {
    ExampleIsManifest("abc123");
    ExampleIsManifest("def456");
    DuplicateDelivery(Example("abc123"), Example("def456"));
  }

  function Example(id: string): string {
    "https://stream.mux.com/" + id + ".m3u8?token=t"
  }

  lemma ExampleIsManifest(id: string)
    requires forall i :: 0 <= i < |id| ==> IsAlnum(id[i])
    ensures IsStreamManifest(Example(id)) && VideoId(Example(id)) == id
  {
    ExampleNamesHost(id);
    ExampleNamesManifest(id);
    ExampleId(id);
  }

  lemma ExampleNamesHost(id: string)
    ensures Contains(Example(id), StreamHost)
  {
    var url := Example(id);
    assert url[8..8 + |StreamHost|] == StreamHost;
    assert OccursAt(url, StreamHost, 8);
  }

  lemma ExampleNamesManifest(id: string)
    ensures Contains(Example(id), ManifestExt)
  {
    var url := Example(id);
    var k := |"https://stream.mux.com/"| + |id|;
    assert url[k..k + |ManifestExt|] == ManifestExt;
    assert OccursAt(url, ManifestExt, k);
  }

  lemma ExampleId(id: string)
    requires forall i :: 0 <= i < |id| ==> IsAlnum(id[i])
    ensures VideoId(Example(id)) == id
  {
    var base := "https://stream.mux.com";
    var query := "?token=t";
    assert Example(id) == base + "/" + id + ManifestExt + query;
    assert '/' !in query;
    VideoIdOfManifest(base, id, query);
  }

  /** `PairsOf(ids, m)` lists `(id, m[id])` for the ids in order: what
      `all_video_urls.items()` yields. */
  function PairsOf(ids: seq<string>, m: map<string, string>): (e: Entries)
    requires forall id :: id in ids ==> id in m
    ensures Keys(e) == ids
  {
    if ids == [] then []
    else
      var last := ids[|ids| - 1];
      KeysAppend(PairsOf(ids[..|ids| - 1], m), (last, m[last]));
      PairsOf(ids[..|ids| - 1], m) + [(last, m[last])]
  }

  lemma {:induction false} PairsOfUpdate(ids: seq<string>, m: map<string, string>, k: string, v: string)
    requires forall id :: id in ids ==> id in m
    requires k !in ids
    ensures PairsOf(ids, m[k := v]) == PairsOf(ids, m)
  {
    if ids != [] {
      PairsOfUpdate(ids[..|ids| - 1], m, k, v);
    }
  }

  /** The dictionary `all_video_urls`, updated in place by the response
      callback: its keys in insertion order and the key-to-URL mapping. */
  class VideoUrlMap {
    var ids: seq<string>
    var urls: map<string, string>

    ghost predicate Valid()
      reads this
    {
      Distinct(ids) && (forall id :: id in urls <==> id in ids)
    }

    /** `all_video_urls.items()`. */
    function Entries(): Entries
      reads this
      requires Valid()
    {
      PairsOf(ids, urls)
    }

    constructor ()
      ensures Valid() && Entries() == []
    {
      ids := [];
      urls := map[];
    }

    /** `len(all_video_urls)`. */
    method Count() returns (n: nat)
      requires Valid()
      ensures n == |Entries()|
    {
      n := |ids|;
    }

    /** `handle_response`: record the URL under its id if it is a stream
        manifest whose id has not been seen before. */
    method HandleResponse(url: string)
      requires Valid()
      modifies this
      ensures Valid()
      ensures Entries() == Observe(old(Entries()), url)
    {
      if IsStreamManifest(url) {
        var id := VideoId(url);
        if id !in urls {
          PairsOfUpdate(ids, urls, id, url);
          var ids' := ids + [id];
          assert ids'[..|ids'| - 1] == ids;
          ids := ids';
          urls := urls[id := url];
        }
      }
    }
  }
}
