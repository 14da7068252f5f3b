/** The batch logic of `run_download` and `run_test`
    (whop_downloader.py:429-525). Which output files exist is an input
    (the set of existing names), and so is the outcome of each yt-dlp
    download (`download_video`), as an oracle on (position, record). */
module Downloads {
  import opened Records

  /** A lesson still to fetch, with its 1-based position. */
  type Task = (nat, LessonRecord)

  /** `already_downloaded` after the first `n` records. */
  function AlreadyDownloaded(videos: seq<LessonRecord>, existing: set<string>, n: nat): seq<LessonRecord>
    requires n <= |videos|
  {
    if n == 0 then []
    else
      var kept := if OutputName(n, videos[n - 1].title) in existing then [videos[n - 1]] else [];
      AlreadyDownloaded(videos, existing, n - 1) + kept
  }

  /** `to_download` after the first `n` records. */
  function ToDownload(videos: seq<LessonRecord>, existing: set<string>, n: nat): seq<Task>
    requires n <= |videos|
  {
    if n == 0 then []
    else
      var pending := if OutputName(n, videos[n - 1].title) in existing then [] else [(n, videos[n - 1])];
      ToDownload(videos, existing, n - 1) + pending
  }

  /** Every record lands in exactly one list; a lesson is to be fetched
      exactly when its output file is missing, with its own position; the
      positions to fetch increase. */
  lemma {:induction false} PartitionSpec(videos: seq<LessonRecord>, existing: set<string>, n: nat)
    requires n <= |videos|
    ensures |AlreadyDownloaded(videos, existing, n)| + |ToDownload(videos, existing, n)| == n
    ensures forall t :: t in ToDownload(videos, existing, n) <==>
      1 <= t.0 <= n && t.1 == videos[t.0 - 1] && OutputName(t.0, t.1.title) !in existing
    ensures forall v :: v in AlreadyDownloaded(videos, existing, n) ==>
      exists k :: 0 <= k < n && videos[k] == v && OutputName(k + 1, v.title) in existing
    ensures forall k :: 0 <= k < n && OutputName(k + 1, videos[k].title) in existing ==>
      videos[k] in AlreadyDownloaded(videos, existing, n)
    ensures forall i, j :: 0 <= i < j < |ToDownload(videos, existing, n)| ==>
      ToDownload(videos, existing, n)[i].0 < ToDownload(videos, existing, n)[j].0
  {
    AlreadyComplete(videos, existing, n);
    PartitionSizes(videos, existing, n);
    ToDownloadMembers(videos, existing, n);
    ToDownloadIncreasing(videos, existing, n);
    AlreadyMembers(videos, existing, n);
  }

  lemma {:induction false} PartitionSizes(videos: seq<LessonRecord>, existing: set<string>, n: nat)
    requires n <= |videos|
    ensures |AlreadyDownloaded(videos, existing, n)| + |ToDownload(videos, existing, n)| == n
  {
    if n > 0 {
      PartitionSizes(videos, existing, n - 1);
    }
  }

  lemma {:induction false} ToDownloadMembers(videos: seq<LessonRecord>, existing: set<string>, n: nat)
    requires n <= |videos|
    ensures forall t :: t in ToDownload(videos, existing, n) <==>
      1 <= t.0 <= n && t.1 == videos[t.0 - 1] && OutputName(t.0, t.1.title) !in existing
  {
    if n > 0 {
      ToDownloadMembers(videos, existing, n - 1);
      var prev := ToDownload(videos, existing, n - 1);
      var last := (n, videos[n - 1]);
      var missing := OutputName(n, videos[n - 1].title) !in existing;
      var all := prev + (if missing then [last] else []);
      assert ToDownload(videos, existing, n) == all;
      forall t
        ensures t in all <==> 1 <= t.0 <= n && t.1 == videos[t.0 - 1] && OutputName(t.0, t.1.title) !in existing
      {
        if t.0 == n {
          assert t in prev <==> false;
        } else {
          assert t in all <==> t in prev;
        }
      }
    }
  }

  lemma {:induction false} ToDownloadIncreasing(videos: seq<LessonRecord>, existing: set<string>, n: nat)
    requires n <= |videos|
    ensures forall i, j :: 0 <= i < j < |ToDownload(videos, existing, n)| ==>
      ToDownload(videos, existing, n)[i].0 < ToDownload(videos, existing, n)[j].0
    ensures forall i :: 0 <= i < |ToDownload(videos, existing, n)| ==> ToDownload(videos, existing, n)[i].0 <= n
  {
    if n > 0 {
      ToDownloadIncreasing(videos, existing, n - 1);
      var prev := ToDownload(videos, existing, n - 1);
      var missing := OutputName(n, videos[n - 1].title) !in existing;
      var all := prev + (if missing then [(n, videos[n - 1])] else []);
      assert ToDownload(videos, existing, n) == all;
      forall i | 0 <= i < |all| ensures all[i].0 <= n {
        if i < |prev| {
          assert all[i] == prev[i];
        }
      }
      forall i, j | 0 <= i < j < |all| ensures all[i].0 < all[j].0 {
        assert all[i] == prev[i];
        if j < |prev| {
          assert all[j] == prev[j];
        }
      }
    }
  }

  lemma {:induction false} AlreadyMembers(videos: seq<LessonRecord>, existing: set<string>, n: nat)
    requires n <= |videos|
    ensures forall v :: v in AlreadyDownloaded(videos, existing, n) ==>
      exists k :: 0 <= k < n && videos[k] == v && OutputName(k + 1, v.title) in existing
  {
    if n > 0 {
      AlreadyMembers(videos, existing, n - 1);
      var prev := AlreadyDownloaded(videos, existing, n - 1);
      var present := OutputName(n, videos[n - 1].title) in existing;
      var all := prev + (if present then [videos[n - 1]] else []);
      assert AlreadyDownloaded(videos, existing, n) == all;
      forall v | v in all
        ensures exists k :: 0 <= k < n && videos[k] == v && OutputName(k + 1, v.title) in existing
      {
        if v !in prev {
          assert videos[n - 1] == v;
        }
      }
    }
  }

  /** Every lesson whose output file exists is reported as already
      downloaded. */
  lemma {:induction false} AlreadyComplete(videos: seq<LessonRecord>, existing: set<string>, n: nat)
    requires n <= |videos|
    ensures forall k :: 0 <= k < n && OutputName(k + 1, videos[k].title) in existing ==>
      videos[k] in AlreadyDownloaded(videos, existing, n)
  {
    if n > 0 {
      AlreadyComplete(videos, existing, n - 1);
      var prev := AlreadyDownloaded(videos, existing, n - 1);
      var present := OutputName(n, videos[n - 1].title) in existing;
      var all := prev + (if present then [videos[n - 1]] else []);
      assert AlreadyDownloaded(videos, existing, n) == all;
      forall k | 0 <= k < n && OutputName(k + 1, videos[k].title) in existing
        ensures videos[k] in all
      {
        if k < n - 1 {
          assert videos[k] in prev;
        }
      }
    }
  }

  /** The loop of lines 446-455. */
  method Partition(videos: seq<LessonRecord>, existing: set<string>)
    returns (already: seq<LessonRecord>, toDownload: seq<Task>)
    ensures already == AlreadyDownloaded(videos, existing, |videos|)
    ensures toDownload == ToDownload(videos, existing, |videos|)
  {
    already, toDownload := [], [];
    var i := 1;
    while i <= |videos|
      invariant 1 <= i <= |videos| + 1
      invariant already == AlreadyDownloaded(videos, existing, i - 1)
      invariant toDownload == ToDownload(videos, existing, i - 1)
    {
      var videoInfo := videos[i - 1];
      var outputPath := OutputName(i, videoInfo.title);
      ghost var present := outputPath in existing;
      assert AlreadyDownloaded(videos, existing, i) == already + (if present then [videoInfo] else []);
      assert ToDownload(videos, existing, i) == toDownload + (if present then [] else [(i, videoInfo)]);
      if outputPath in existing {
        already := already + [videoInfo];
      } else {
        toDownload := toDownload + [(i, videoInfo)];
      }
      i := i + 1;
    }
  }

  /** `failed_downloads`: the records whose download failed, in order. */
  function Failures(tasks: seq<Task>, downloaded: Task -> bool): seq<LessonRecord> {
    if tasks == [] then []
    else
      var last := tasks[|tasks| - 1];
      Failures(tasks[..|tasks| - 1], downloaded) + (if downloaded(last) then [] else [last.1])
  }

  /** No failure is recorded exactly when every task was downloaded. */
  lemma {:induction false} FailuresSpec(tasks: seq<Task>, downloaded: Task -> bool)
    ensures |Failures(tasks, downloaded)| <= |tasks|
    ensures Failures(tasks, downloaded) == [] <==> forall t :: t in tasks ==> downloaded(t)
  {
    if tasks != [] {
      var init := tasks[..|tasks| - 1];
      FailuresSpec(init, downloaded);
      assert tasks == init + [tasks[|tasks| - 1]];
    }
  }

  /** The loop of lines 471-477. */
  method DownloadAll(tasks: seq<Task>, downloaded: Task -> bool) returns (failed: seq<LessonRecord>)
    ensures failed == Failures(tasks, downloaded)
  {
    failed := [];
    var k := 0;
    while k < |tasks|
      invariant 0 <= k <= |tasks|
      invariant failed == Failures(tasks[..k], downloaded)
    {
      var (i, videoInfo) := tasks[k];
      var success := downloaded((i, videoInfo));
      if !success {
        failed := failed + [videoInfo];
      }
      assert tasks[..k + 1][..k] == tasks[..k];
      k := k + 1;
    }
    assert tasks[..|tasks|] == tasks;
  }

  /** The success rule of `run_download`: some lessons were found and
      every lesson still to fetch was downloaded. */
  predicate DownloadSucceeds(videos: seq<LessonRecord>, existing: set<string>, downloaded: Task -> bool) {
    |videos| > 0 && forall t :: t in ToDownload(videos, existing, |videos|) ==> downloaded(t)
  }

  /** A run succeeds exactly when lessons were found and each one was
      either already on disk or downloaded now (lesson k + 1 is record k). */
  lemma DownloadSucceedsMeaning(videos: seq<LessonRecord>, existing: set<string>, downloaded: Task -> bool)
    ensures DownloadSucceeds(videos, existing, downloaded) <==>
      |videos| > 0 &&
      forall k :: 0 <= k < |videos| ==>
        OutputName(k + 1, videos[k].title) in existing || downloaded((k + 1, videos[k]))
  {
    PartitionSpec(videos, existing, |videos|);
    var pending := ToDownload(videos, existing, |videos|);
    if |videos| > 0 && forall t :: t in pending ==> downloaded(t) {
      forall k | 0 <= k < |videos| && OutputName(k + 1, videos[k].title) !in existing
        ensures downloaded((k + 1, videos[k]))
      {
        assert (k + 1, videos[k]) in pending;
      }
    }
  }

  /** `run_download` after extraction has produced `videos`. */
  method RunDownload(videos: seq<LessonRecord>, existing: set<string>, downloaded: Task -> bool)
    returns (success: bool)
    ensures success == DownloadSucceeds(videos, existing, downloaded)
  {
    if |videos| == 0 {
      return false;
    }
    var already, toDownload := Partition(videos, existing);
    if |toDownload| == 0 {
      return true;
    }
    var failed := DownloadAll(toDownload, downloaded);
    FailuresSpec(toDownload, downloaded);
    success := |failed| == 0;
  }

  /** The success rule of `run_test` (lines 503-505 and 525). */
  function TestSucceeds(videos: seq<LessonRecord>): (ok: bool)
    ensures ok <==> videos != []
  {
    if videos == [] then false else |videos| > 0
  }
}
