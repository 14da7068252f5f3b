/** The command line (`main`, `download_command` and `test_command`,
    whop_downloader.py:528-584): parsing `sys.argv` and the exit status. */
module Cli {
  import opened Strings
  import opened Wrappers
  import Records
  import Downloads
  import Extraction
  import Observer

  /** What `main` does with its arguments: print the usage text, reject an
      unknown command, or run `download` or `test`. */
  datatype Invocation =
    | Usage
    | UnknownCommand(command: string)
    | Download(courseUrl: string, targetDir: Option<string>, force: bool)
    | Test(courseUrl: string, force: bool)

  const ForceFlag := "--force"

  predicate IsOption(arg: string) {
    StartsWith(arg, "--")
  }

  /** The last argument that is not an option. */
  function LastPositional(args: seq<string>): Option<string> {
    if args == [] then None
    else if !IsOption(args[|args| - 1]) then Some(args[|args| - 1])
    else LastPositional(args[..|args| - 1])
  }

  /** There is no positional argument exactly when every argument is an
      option; otherwise the result is a positional argument with only
      options after it. */
  lemma {:induction false} LastPositionalSpec(args: seq<string>)
    ensures LastPositional(args).None? <==> forall i :: 0 <= i < |args| ==> IsOption(args[i])
    ensures LastPositional(args).Some? ==>
      exists i :: 0 <= i < |args| && args[i] == LastPositional(args).value && !IsOption(args[i]) &&
        forall j :: i < j < |args| ==> IsOption(args[j])
  {
    if args != [] && IsOption(args[|args| - 1]) {
      var init := args[..|args| - 1];
      LastPositionalSpec(init);
      if LastPositional(init).Some? {
        var i :| 0 <= i < |init| && init[i] == LastPositional(init).value && !IsOption(init[i]) &&
          forall j :: i < j < |init| ==> IsOption(init[j]);
        assert LastPositional(args) == LastPositional(init);
        assert args[i] == init[i];
        forall j | i < j < |args| ensures IsOption(args[j]) {
          if j < |init| {
            assert args[j] == init[j];
          }
        }
      }
    }
  }

  /** Lines 570-574: the loop over the extra arguments of `download`; the
      last non-option argument is the target directory. */
  method ScanDownloadArgs(extra: seq<string>) returns (targetDir: Option<string>, force: bool)
    ensures targetDir == LastPositional(extra)
    ensures force <==> ForceFlag in extra
  {
    targetDir, force := None, false;
    for k := 0 to |extra|
      invariant targetDir == LastPositional(extra[..k])
      invariant force <==> ForceFlag in extra[..k]
    {
      var arg := extra[k];
      assert extra[..k + 1][..k] == extra[..k];
      assert extra[..k + 1] == extra[..k] + [arg];
      if arg == ForceFlag {
        force := true;
      } else if !IsOption(arg) {
        targetDir := Some(arg);
      }
    }
    assert extra[..|extra|] == extra;
  }

  /** Lines 544-584: the invocation `main` makes of `argv`. */
  method ParseArgs(argv: seq<string>) returns (inv: Invocation)
    ensures |argv| < 3 <==> inv == Usage
    ensures |argv| >= 3 && Lower(argv[1]) == "download" ==>
      inv == Download(argv[2], LastPositional(argv[3..]), ForceFlag in argv[3..])
    ensures |argv| >= 3 && Lower(argv[1]) == "test" ==>
      inv == Test(argv[2], ForceFlag in argv[3..])
    ensures |argv| >= 3 && Lower(argv[1]) != "download" && Lower(argv[1]) != "test" ==>
      inv == UnknownCommand(Lower(argv[1]))
  {
    if |argv| < 3 {
      return Usage;
    }
    var command := Lower(argv[1]);
    var courseUrl := argv[2];
    var extra := argv[3..];
    if command == "download" {
      var targetDir, force := ScanDownloadArgs(extra);
      inv := Download(courseUrl, targetDir, force);
    } else if command == "test" {
      inv := Test(courseUrl, ForceFlag in extra);
    } else {
      inv := UnknownCommand(command);
    }
  }

  /** Lines 532 and 539: 0 on success, 1 otherwise. */
  function ExitCode(success: bool): (code: int)
    ensures code == 0 <==> success
    ensures code == 1 <==> !success
  {
    if success then 0 else 1
  }

  /** The status `main` exits with, given whether the command it ran
      succeeded: usage errors and unknown commands exit with 1. */
  function MainExitCode(inv: Invocation, succeeded: bool): (code: int)
    ensures code == 0 <==> (inv.Download? || inv.Test?) && succeeded
    ensures code == 0 || code == 1
  {
    match inv
    case Usage => 1
    case UnknownCommand(_) => 1
    case Download(_, _, _) => ExitCode(succeeded)
    case Test(_, _) => ExitCode(succeeded)
  }

  /** `download_command`: extraction, then the download batch. */
  function DownloadCommandExit(cache: Extraction.CacheFile, force: bool, loginTimedOut: bool,
                               responses: seq<string>, existing: set<string>,
                               downloaded: Downloads.Task -> bool): (code: int)
    ensures var videos := Extraction.ExtractVideoUrls(cache, force, loginTimedOut, responses);
      (code == 0 <==> videos != [] && forall k :: 0 <= k < |videos| ==>
         Records.OutputName(k + 1, videos[k].title) in existing || downloaded((k + 1, videos[k]))) &&
      (code == 0 || code == 1)
  {
    var videos := Extraction.ExtractVideoUrls(cache, force, loginTimedOut, responses);
    Downloads.DownloadSucceedsMeaning(videos, existing, downloaded);
    ExitCode(Downloads.DownloadSucceeds(videos, existing, downloaded))
  }

  /** `test_command`: extraction only. */
  function TestCommandExit(cache: Extraction.CacheFile, force: bool, loginTimedOut: bool,
                           responses: seq<string>): (code: int)
    ensures code == 0 <==> Extraction.ExtractVideoUrls(cache, force, loginTimedOut, responses) != []
    ensures code == 1 <==> Extraction.ExtractVideoUrls(cache, force, loginTimedOut, responses) == []
  {
    ExitCode(Downloads.TestSucceeds(Extraction.ExtractVideoUrls(cache, force, loginTimedOut, responses)))
  }

  /** A run that does not use the cache and whose login wait timed out
      finds nothing and exits with status 1, in both commands. */
  lemma LoginTimeoutFails(cache: Extraction.CacheFile, force: bool, responses: seq<string>,
                          existing: set<string>, downloaded: Downloads.Task -> bool)
    requires Extraction.CachedVideos(cache, force).None?
    ensures Extraction.ExtractVideoUrls(cache, force, true, responses) == []
    ensures DownloadCommandExit(cache, force, true, responses, existing, downloaded) == 1
    ensures TestCommandExit(cache, force, true, responses) == 1
  {
  }

  /** A fresh run that captured no stream exits with status 1; one that
      captured some and finds every lesson file present exits with 0. */
  lemma FreshRunExit(responses: seq<string>, existing: set<string>, downloaded: Downloads.Task -> bool)
    ensures Observer.ManifestIds(responses) == {} ==>
      DownloadCommandExit(Extraction.Absent, false, false, responses, existing, downloaded) == 1 &&
      TestCommandExit(Extraction.Absent, false, false, responses) == 1
    ensures (Observer.ManifestIds(responses) != {} &&
             forall k :: 0 <= k < |Extraction.FreshRecords(responses)| ==>
               Records.OutputName(k + 1, Extraction.FreshRecords(responses)[k].title) in existing)
        ==> DownloadCommandExit(Extraction.Absent, false, false, responses, existing, downloaded) == 0
  {
    Extraction.FreshRecordsSpec(responses);
    Downloads.DownloadSucceedsMeaning(Extraction.FreshRecords(responses), existing, downloaded);
  }
}
