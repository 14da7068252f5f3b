# Whop course downloader — verified model of its capture and bookkeeping logic

The downloader drives a browser through a paywalled course and listens to the
network traffic for Mux stream manifests (`stream.mux.com/<id>.m3u8`). It
keeps the first URL seen for each video id, turns the captured streams into
numbered lesson records, caches them in `downloads/video_urls.json`, and then
fetches each missing lesson with yt-dlp.

This project models the deterministic parts of `whop_downloader.py` in Dafny,
with the browser, the file system and yt-dlp replaced by inputs:

- `Strings` — the Python string built-ins the code relies on: `in`,
  `split(sep)[0]`, `split('/')[-1]`, `startswith`, `lower`, `isalnum`,
  `rstrip` and the `{n:0Wd}` format. The model is ASCII.
- `Observer` — the response callback `handle_response`. The dictionary
  `all_video_urls` is the class `VideoUrlMap`: its keys in insertion order
  plus a key-to-URL map. The dictionary's contents are also described as a
  value (`Entries`, a list of `(id, url)` pairs), with `Observe` giving the
  effect of one response and `ObserveAll` the effect of a sequence of them.
- `Pager` — the keyboard paging loop, driven by one capture count per
  attempt.
- `Login` — the login wait loop, driven by the URL seen at each poll.
- `Records` — the lesson records, the safe file name of each lesson and
  the iframe address normalisation.
- `Downloads` — the split of `run_download` into lessons already on disk
  and lessons to fetch, the download loop and the success rules of
  `run_download` and `run_test`.
- `Extraction` — the cache decision and what `extract_video_urls` returns.
- `Cli` — `main`'s argument parsing and the exit codes.

Two behaviours of the code are proved as they are written, even though they
differ from what the code's comments and log lines suggest:

- **The pager never stops early.** The stop rule (line 241) is meant to end
  paging after more than 30 attempts without a new stream. But the counter
  is set back to 10 whenever it passes 15 (line 267). So it is at most 15 at
  the start of an attempt and at most 16 at the stop test. The pager
  therefore always makes all 150 attempts (`Pager.NeverStops`,
  `Pager.KeyboardPager`).
- **A login on the last poll counts as a timeout.** The wait ends when
  `elapsed` reaches 300. A login noticed on the 150th poll leaves `elapsed`
  at 300, and line 185 then reports a timeout (`Login.WaitForLogin`).

Why one capture count per pager attempt is enough: the response callback
runs only while the pager is suspended at an await (the two-second wait at
line 228, the key presses at lines 247 and 263, the lookups, clicks and
waits at lines 255-264). None of them lies between the count comparison
(line 231) and the stop test (line 241), so both read the same count. `Observer.CaptureCountGrows` shows
that the count only grows as responses arrive. The pager contracts do not
need that fact.

## Model

| member | source | states |
|---|---|---|
| `Strings.LastSegment` | whop_downloader.py:116 | `split('/')[-1]`: the result has no `/`, is a suffix of the input, and is preceded by a `/` unless it is the whole input |
| `Strings.BeforeFirstSpec` | whop_downloader.py:116 | `split(sep)[0]` stops at the first occurrence of the separator: no occurrence starts earlier, and one starts right after the result unless the whole input was kept |
| `Strings.BeforeFirstExcludes` | whop_downloader.py:116 | the part before the first separator never contains the separator |
| `Strings.Lower` | whop_downloader.py:562 | `lower()` keeps the length, turns each capital into its own lower-case letter, keeps every other character, and leaves no upper-case letter |
| `Strings.LowerMatches` | whop_downloader.py:562 | `s.lower()` equals a lower-case word exactly when `s` is a case variant of it, so `download`, `Download` and `DOWNLOAD` all select the same command |
| `Strings.RStrip` | whop_downloader.py:344 | `rstrip()` keeps a prefix that does not end in whitespace, and removes only whitespace |
| `Strings.DigitsRoundTrip` | whop_downloader.py:319 | the decimal digits of `n` read back as `n` |
| `Strings.DigitsNoLeadingZero` | whop_downloader.py:319 | `str(n)` starts with `0` exactly when `n` is 0, and `str(0)` is exactly `0`, so together with the read-back it is the canonical decimal form |
| `Strings.ZeroPaddedRoundTrip` | whop_downloader.py:319 | `{n:0Wd}` is at least `W` characters long (exactly `W` when the number has fewer digits) and reads back as `n` |
| `Observer.VideoId` | whop_downloader.py:116 | the extracted id contains no `/`, no `?` and no `.m3u8`, and is a prefix of the URL's last `/`-segment |
| `Observer.VideoIdOfManifest` | whop_downloader.py:116 | for a URL `…/<id>.m3u8<query>` with an alphanumeric id and no `/` in the query, the extracted id is exactly `<id>` |
| `Observer.ObserveCases` | whop_downloader.py:114-119 | a URL lacking `stream.mux.com` or `.m3u8` changes nothing; a known id changes nothing, so its first URL is kept; a new id is appended at the end and the size grows by one |
| `Observer.ObservePreserves` | whop_downloader.py:117-118 | one response keeps the ids pairwise distinct and keeps every entry mapping a manifest's id to that manifest |
| `Observer.ObserveIdempotent` | whop_downloader.py:117 | seeing the same response twice in a row has the effect of seeing it once |
| `Observer.ObserveAllAppend` | whop_downloader.py:112-121 | observing a sequence and then one more response is observing that response after the sequence |
| `Observer.ObserveAllConcat` | whop_downloader.py:112-121 | observing two sequences one after the other is observing their concatenation |
| `Observer.ObserveAllExtends` | whop_downloader.py:117-118 | the earlier entries stay an unchanged prefix, at most one entry is added per response, and each added URL is one of the responses |
| `Observer.ObserveAllPreserves` | whop_downloader.py:117-118 | after any sequence of responses the ids are pairwise distinct and every entry is well formed |
| `Observer.ObserveAllKeys` | whop_downloader.py:114-118 | an id is captured exactly when it was there before or some manifest among the responses has that id |
| `Observer.Redelivery` | whop_downloader.py:117 | redelivering any response seen earlier changes nothing |
| `Observer.CaptureCount` | whop_downloader.py:117-119 | starting empty, the number of captured streams equals the number of distinct manifest ids seen |
| `Observer.CaptureCountGrows` | whop_downloader.py:231 | the capture count never decreases as responses arrive |
| `Observer.DuplicateDelivery` | whop_downloader.py:117-119 | manifests `a`, `b`, `a` with different ids give two entries, in first-delivery order, each with its first URL |
| `Observer.DuplicateExample` | whop_downloader.py:117-119 | the responses for `abc123`, `def456`, `abc123` give exactly the entries `abc123` then `def456` |
| `Observer.ExampleIsManifest` | whop_downloader.py:114-116 | a URL `https://stream.mux.com/<id>.m3u8?token=t` passes the filter and yields `<id>` |
| `Observer.VideoUrlMap.constructor` | whop_downloader.py:108 | the dictionary starts empty |
| `Observer.VideoUrlMap.Count` | whop_downloader.py:231 | `len(all_video_urls)` is the number of entries |
| `Observer.VideoUrlMap.HandleResponse` | whop_downloader.py:112-119 | the callback keeps the dictionary valid (distinct keys, keys and map in step); its new contents are those of `Observe` on the old contents |
| `Pager.Check` | whop_downloader.py:225-238 | an attempt increments the navigation count; the stall counter becomes 0 exactly when the capture count exceeds the last one seen, and otherwise grows by one; the last count seen is the running maximum |
| `Pager.AttemptBounds` | whop_downloader.py:231-267 | from a stall counter of at most 15 an attempt has at most 16 at the stop test, does not stop, ends at most 15 again, and presses ArrowRight once |
| `Pager.NeverStops` | whop_downloader.py:224-267 | from a counter of at most 15 the early stop is never taken: one attempt and one ArrowRight per count, counter at most 15, last count the maximum of the counts |
| `Pager.MaxOfNonDecreasing` | whop_downloader.py:231-232 | for growing capture counts the largest count seen is the final one |
| `Pager.PagerRunsToCap` | whop_downloader.py:215-267 | from the initial state and 150 counts, the loop makes all 150 attempts and 150 ArrowRight presses and never stops early; for growing counts `last_video_count` ends at the final count |
| `Pager.KeyboardPager` | whop_downloader.py:215-267 | the loop computes the pager function `Run` and ends after exactly 150 attempts without the early stop |
| `Login.WaitForLogin` | whop_downloader.py:166-188 | `elapsed` is a multiple of 2 and at most 300; no wait off a login page; the wait times out exactly when `elapsed` reaches 300, which is exactly when the first 149 polls all showed a login page; otherwise the last poll left the login page and all earlier ones did not |
| `Records.LessonTitleReadsBack` | whop_downloader.py:319 | a lesson title is `Lesson ` followed by at least two digits that read back as the lesson number |
| `Records.LessonTitlesDistinct` | whop_downloader.py:319 | different lesson numbers give different titles |
| `Records.RecordsOfSpec` | whop_downloader.py:317-324 | as many records as captures; record k (from 1) has index k, the k-th id and URL and the title for k; distinct captured ids give distinct record ids |
| `Records.BuildRecords` | whop_downloader.py:316-324 | the conversion loop builds exactly the records of `RecordsOf` |
| `Records.KeepChars` | whop_downloader.py:344 | the character filter keeps only letters, digits, space, `-` and `_`, and never lengthens the title |
| `Records.KeepCharsMembers` | whop_downloader.py:344 | a character is in the filtered title exactly when it is in the title and is a letter, digit, space, `-` or `_` |
| `Records.KeepCharsConcat` | whop_downloader.py:344 | the filter of a concatenation is the concatenation of the filters, so kept characters stay in order |
| `Records.SpacesToUnderscores` | whop_downloader.py:345 | `replace(' ', '_')` keeps the length, turns every space into `_` and keeps every other character |
| `Records.SafeTitle` | whop_downloader.py:344-345 | the safe title is made of letters, digits, `-` and `_`, contains no space, and is no longer than the title |
| `Records.SafeTitleOfClean` | whop_downloader.py:344-345 | a title already made of safe characters is kept unchanged |
| `Records.SafeTitleIdempotent` | whop_downloader.py:344-345 | sanitising twice is sanitising once |
| `Records.SafeLessonTitle` | whop_downloader.py:344-345 | the title of lesson k sanitises to `Lesson_` followed by k in two digits |
| `Records.OutputNameParts` | whop_downloader.py:347 | an output name is the index in at least three digits (reading back as the index), then `_`, the safe title, and `.mp4` |
| `Records.OutputNamesDistinct` | whop_downloader.py:347 | lessons with different indices get different file names, whatever their titles |
| `Records.LessonOutputName` | whop_downloader.py:347 | the file of lesson k is k in three digits, `_Lesson_`, k in two digits, `.mp4` |
| `Records.OutputNameExample` | whop_downloader.py:347 | lesson 7 is titled `Lesson 07` and stored as `007_Lesson_07.mp4` |
| `Records.AbsoluteIframeUrlSpec` | whop_downloader.py:151-152 | the normalised address never starts with `/`, an address not starting with `/` is kept, the original is a suffix of the result, and normalising is idempotent |
| `Records.IframeTarget` | whop_downloader.py:147-152 | the downloader moves exactly when the lookup found a non-empty address, and then to its normalised form |
| `Downloads.PartitionSpec` | whop_downloader.py:446-455 | each record lands in exactly one list; a lesson is to be fetched exactly when its file is missing, with its own position; every record reported as already downloaded is a lesson whose file exists, and every lesson whose file exists is reported as already downloaded; positions to fetch increase |
| `Downloads.Partition` | whop_downloader.py:443-455 | the loop builds exactly the two lists of the partition functions |
| `Downloads.FailuresSpec` | whop_downloader.py:470-474 | there are never more failures than tasks, and none exactly when every task was downloaded |
| `Downloads.DownloadAll` | whop_downloader.py:470-477 | the download loop records exactly the failed lessons, in order |
| `Downloads.DownloadSucceedsMeaning` | whop_downloader.py:438-492 | a download run succeeds exactly when lessons were found and each one is either already on disk or downloaded now |
| `Downloads.RunDownload` | whop_downloader.py:429-492 | `run_download`'s result is that success rule: false with no lessons, true when nothing is missing, otherwise true exactly when no download failed |
| `Downloads.TestSucceeds` | whop_downloader.py:494-525 | `run_test` succeeds exactly when some lesson was found |
| `Extraction.CachedVideos` | whop_downloader.py:71-78 | the cache is used exactly when `--force` is off and the file holds a non-empty list, and then returned unchanged |
| `Extraction.ForceBypassesCache` | whop_downloader.py:71 | with `--force` the result does not depend on the cache file: nothing after a login timeout, otherwise the fresh captures |
| `Extraction.ExtractVideoUrls` | whop_downloader.py:66-336 | the cached records when the cache is used, nothing after a login timeout, otherwise the fresh captures (stated by the lemmas above and below) |
| `Extraction.CacheAfter` | whop_downloader.py:326-328 | the cache file is rewritten only by a run that did not use the cache and got past the login wait, and such a run always writes its fresh records, even when there are none |
| `Extraction.CacheRoundTrip` | whop_downloader.py:326-328 | a non-empty result is returned unchanged by the next run without `--force`, whatever that run's browser would see |
| `Extraction.FreshRecordsSpec` | whop_downloader.py:316-324 | a fresh extraction gives one record per distinct stream id, numbered from 1 with matching titles and distinct ids; each record's URL is a received manifest whose id is the record's id |
| `Extraction.DuplicateExampleRecords` | whop_downloader.py:317-324 | `abc123`, `def456`, `abc123` give two records: lesson 1 for `abc123`, lesson 2 for `def456` |
| `Cli.LastPositionalSpec` | whop_downloader.py:570-574 | there is no target directory exactly when every extra argument starts with `--`; otherwise it is the last extra argument not starting with `--` |
| `Cli.ScanDownloadArgs` | whop_downloader.py:566-574 | the loop over `download`'s extra arguments sets `force` exactly when some argument is `--force` and leaves the target as the last argument not starting with `--` (none if there is none) |
| `Cli.ParseArgs` | whop_downloader.py:544-584 | fewer than 3 arguments print the usage; a command other than `download` or `test` after lower-casing is rejected; `download` takes the course URL, the last non-option extra argument as target and `--force` exactly when some extra argument is `--force`; `test` takes the URL and `--force` the same way |
| `Cli.ExitCode` | whop_downloader.py:532 | the status is 0 exactly on success and 1 exactly on failure |
| `Cli.MainExitCode` | whop_downloader.py:560-584 | `main` exits with 0 only for a `download` or `test` command that succeeded; otherwise with 1 |
| `Cli.DownloadCommandExit` | whop_downloader.py:528-532 | the `download` command's status is 0 exactly when `run_download` succeeded |
| `Cli.TestCommandExit` | whop_downloader.py:535-539 | the `test` command's status is 0 exactly when `run_test` found lessons |
| `Cli.LoginTimeoutFails` | whop_downloader.py:185-188 | a run that does not use the cache and whose login wait timed out finds nothing and exits with 1, in both commands |
| `Cli.FreshRunExit` | whop_downloader.py:528-539 | a fresh run that captured no stream exits with 1; one that captured some and finds every lesson file present exits with 0 |

## Left out

- Browser automation is not modelled: launching Chromium, `goto`, the iframe lookup script, the waits and the video-area click (lines 85-162, 190-209, 247-264). The model sees only what they produce: the lookup result, the URLs polled during the login wait, the network responses, and the key presses as events (`Pager.Key`).
- Navigation method detection (lines 197-209) is not modelled. It needs the browser, and its only logic is comparing the page URL before and after ArrowRight. The model starts the pager as if keyboard navigation worked.
- Manual monitoring mode (lines 268-314) is not modelled. It is driven by wall-clock time and by exceptions from a closed browser, so nothing in it is deterministic.
- `download_video`'s yt-dlp invocation and format-retry loop (lines 338-427) are left out. They depend on an external tool's exit status and output. The outcome of each download is an input (`downloaded`).
- File system and JSON are not modelled: directory creation, `exists()`, `json.load` and `json.dump`. The existing output files are a set of names, and the cache file is `Absent`, `Unreadable` or `Stored(records)`.
- Extraction.CachedVideos: does not model a cache file holding a non-empty JSON value other than a list. The source would return such a value; the model treats every readable cache as a list of records.
- Logging, `time.sleep`, `asyncio.run` and the interleaving of the response callback with the pager are left out. The pager's capture counts are an input, one per attempt.
- Strings.Lower, Strings.IsAlnum and Strings.RStrip model Python's Unicode `lower`, `isalnum` and whitespace for ASCII only; non-ASCII whitespace such as `\x85` or `\xa0` is not stripped by the model (at line 344 the filter has already removed it).
- Extraction.ExtractVideoUrls and Cli.FreshRunExit: assume every browser call returns. A call outside the two `try` blocks (lines 254-260 and 283-314) that raises, such as a `goto` timeout at line 124 or 156 or the window closing during paging at line 228 or 247, ends the run with a traceback and status 1 and leaves the cache untouched; the model does not represent that outcome.
- The `WhopDownloader` constructor's choice of target directory (line 36) is left out. It is path handling only; the working directory is a run input.
- `run_test`'s listing of the first and last five videos (lines 511-519) is left out, because it only writes log lines.
