/** The outcome of `extract_video_urls` (whop_downloader.py:66-336) as a
    function of what the browser session produced: the cache file as
    found, the `--force` flag, whether the login wait timed out, and the
    network responses the observer saw, in order. */
module Extraction {
  import opened Wrappers
  import opened Records
  import Observer

  /** The cache file `downloads/video_urls.json`: missing, present but not
      readable as a list of records, or holding a list of records. */
  datatype CacheFile = Absent | Unreadable | Stored(records: seq<LessonRecord>)

  /** Lines 71-81: the cached records are used exactly when `--force` is
      off and the file holds a non-empty list; they are used unchanged. */
  function CachedVideos(cache: CacheFile, force: bool): (r: Option<seq<LessonRecord>>)
    ensures r.Some? <==> !force && cache.Stored? && cache.records != []
    ensures r.Some? ==> r.value == cache.records
  {
    if !force && cache.Stored? && cache.records != [] then Some(cache.records) else None
  }

  /** The records a fresh extraction saves: one per captured stream. */
  function FreshRecords(responses: seq<string>): seq<LessonRecord> {
    RecordsOf(Observer.ObserveAll([], responses))
  }

  /** The records `extract_video_urls` returns: the cache when it is used,
      nothing after a login timeout (line 188), otherwise the captures. */
  function ExtractVideoUrls(cache: CacheFile, force: bool, loginTimedOut: bool, responses: seq<string>): (videos: seq<LessonRecord>)
    ensures !force && cache.Stored? && cache.records != [] ==> videos == cache.records
    ensures (force || !cache.Stored? || cache.records == []) ==>
      videos == if loginTimedOut then [] else FreshRecords(responses)
  {
    match CachedVideos(cache, force)
    case Some(videos) => videos
    case None => if loginTimedOut then [] else FreshRecords(responses)
  }

  /** The cache file after the run: rewritten (lines 327-328) only by a
      fresh extraction that got past the login wait, and then with what the
      run returns, even when that is empty. */
  function CacheAfter(cache: CacheFile, force: bool, loginTimedOut: bool, responses: seq<string>): (after: CacheFile)
    ensures after == cache || after == Stored(ExtractVideoUrls(cache, force, loginTimedOut, responses))
    ensures ExtractVideoUrls(cache, force, loginTimedOut, responses) != [] ==>
      after == Stored(ExtractVideoUrls(cache, force, loginTimedOut, responses))
    ensures loginTimedOut ==> after == cache
    ensures CachedVideos(cache, force).None? && !loginTimedOut ==> after == Stored(FreshRecords(responses))
  {
    if CachedVideos(cache, force).Some? || loginTimedOut then cache
    else Stored(FreshRecords(responses))
  }

  /** With `--force` the cache plays no part in the result. */
  lemma ForceBypassesCache(c1: CacheFile, c2: CacheFile, loginTimedOut: bool, responses: seq<string>)
    ensures ExtractVideoUrls(c1, true, loginTimedOut, responses) == ExtractVideoUrls(c2, true, loginTimedOut, responses)
    ensures ExtractVideoUrls(c1, true, loginTimedOut, responses) ==
      (if loginTimedOut then [] else FreshRecords(responses))
  {
  }

  /** Whatever one run returns, if non-empty, is returned unchanged by the
      next run without `--force`, whatever that run's browser would see. */
  lemma CacheRoundTrip(cache: CacheFile, force: bool, loginTimedOut: bool, responses: seq<string>,
                       nextTimedOut: bool, nextResponses: seq<string>)
    requires ExtractVideoUrls(cache, force, loginTimedOut, responses) != []
    ensures ExtractVideoUrls(CacheAfter(cache, force, loginTimedOut, responses), false, nextTimedOut, nextResponses)
         == ExtractVideoUrls(cache, force, loginTimedOut, responses)
  {
  }

  /** A fresh extraction yields one record per distinct stream id seen,
      numbered from 1 in discovery order, with distinct ids, each record's
      URL being a stream manifest whose id is the record's id. */
  lemma FreshRecordsSpec(responses: seq<string>)
    ensures |FreshRecords(responses)| == |Observer.ManifestIds(responses)|
    ensures forall k :: 0 <= k < |FreshRecords(responses)| ==>
      FreshRecords(responses)[k].index == k + 1 &&
      FreshRecords(responses)[k].title == LessonTitle(k + 1) &&
      Observer.IsStreamManifest(FreshRecords(responses)[k].url) &&
      Observer.VideoId(FreshRecords(responses)[k].url) == FreshRecords(responses)[k].videoId &&
      FreshRecords(responses)[k].url in responses
    ensures forall i, j :: 0 <= i < j < |FreshRecords(responses)| ==>
      FreshRecords(responses)[i].videoId != FreshRecords(responses)[j].videoId
  {
    var e := Observer.ObserveAll([], responses);
    Observer.CaptureCount(responses);
    Observer.ObserveAllPreserves([], responses);
    Observer.ObserveAllExtends([], responses);
    RecordsOfSpec(e);
  }

  /** The example run: responses for `abc123`, `def456` and `abc123` again
      give two records, lesson 1 for `abc123` and lesson 2 for `def456`. */
  lemma DuplicateExampleRecords()
    ensures var r := FreshRecords([Observer.Example("abc123"), Observer.Example("def456"), Observer.Example("abc123")]);
      |r| == 2 &&
      r[0] == LessonRecord(LessonTitle(1), Observer.Example("abc123"), "abc123", 1) &&
      r[1] == LessonRecord(LessonTitle(2), Observer.Example("def456"), "def456", 2)
  {
    var a, b := Observer.Example("abc123"), Observer.Example("def456");
    var e := Observer.ObserveAll([], [a, b, a]);
    Observer.DuplicateExample();
    assert e == [("abc123", a), ("def456", b)];
    RecordsOfSpec(e);
  }
}
