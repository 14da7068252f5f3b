/** What the downloader derives from the captured streams: the lesson
    records it saves (whop_downloader.py:316-324), the file name each
    lesson is stored under (whop_downloader.py:343-347 and 447-450) and
    the normalised course iframe address (whop_downloader.py:147-152). */
module Records {
  import opened Strings
  import opened Wrappers
  import Observer

  /** One saved lesson: `{title, url, video_id, index}`. */
  datatype LessonRecord = LessonRecord(title: string, url: string, videoId: string, index: nat)

  const TitlePrefix := "Lesson "

  /** `f'Lesson {index:02d}'`. */
  function LessonTitle(index: nat): string {
    TitlePrefix + ZeroPadded(index, 2)
  }

  /** A lesson title states its number, with at least two digits. */
  lemma LessonTitleReadsBack(index: nat)
    ensures |LessonTitle(index)| >= |TitlePrefix| + 2
    ensures LessonTitle(index)[..|TitlePrefix|] == TitlePrefix
    ensures AllDigits(LessonTitle(index)[|TitlePrefix|..])
    ensures DecimalValue(LessonTitle(index)[|TitlePrefix|..]) == index
  {
    ZeroPaddedRoundTrip(index, 2);
    assert LessonTitle(index)[|TitlePrefix|..] == ZeroPadded(index, 2);
  }

  /** The records built from `all_video_urls.items()`, numbered from 1. */
  function RecordsOf(e: Observer.Entries): seq<LessonRecord> {
    seq(|e|, k requires 0 <= k < |e| => LessonRecord(LessonTitle(k + 1), e[k].1, e[k].0, k + 1))
  }

  /** Record k (from 1) holds the k-th captured id and URL, index k and a
      title naming k; the records are as many as the captures; and distinct
      captured ids give distinct record ids. */
  lemma RecordsOfSpec(e: Observer.Entries)
    ensures |RecordsOf(e)| == |e|
    ensures forall k :: 1 <= k <= |e| ==>
      RecordsOf(e)[k - 1].index == k &&
      RecordsOf(e)[k - 1].videoId == e[k - 1].0 &&
      RecordsOf(e)[k - 1].url == e[k - 1].1 &&
      RecordsOf(e)[k - 1].title == LessonTitle(k)
    ensures Observer.Distinct(Observer.Keys(e)) ==>
      forall i, j :: 0 <= i < j < |e| ==> RecordsOf(e)[i].videoId != RecordsOf(e)[j].videoId
  {
  }

  /** Different lesson numbers give different titles. */
  lemma LessonTitlesDistinct(i: nat, j: nat)
    requires i != j
    ensures LessonTitle(i) != LessonTitle(j)
  {
    LessonTitleReadsBack(i);
    LessonTitleReadsBack(j);
  }

  /** The loop of lines 317-324, appending one record per capture. */
  method BuildRecords(e: Observer.Entries) returns (videoData: seq<LessonRecord>)
    ensures videoData == RecordsOf(e)
  {
    videoData := [];
    var index := 1;
    while index <= |e|
      invariant 1 <= index <= |e| + 1
      invariant videoData == RecordsOf(e[..index - 1])
    {
      var (videoId, url) := e[index - 1];
      videoData := videoData + [LessonRecord(LessonTitle(index), url, videoId, index)];
      assert RecordsOf(e[..index]) == RecordsOf(e[..index - 1]) + [LessonRecord(LessonTitle(index), url, videoId, index)];
      index := index + 1;
    }
    assert e[..|e|] == e;
  }

  /** The characters `download_video` keeps in a title. */
  predicate IsKeptChar(c: char) {
    IsAlnum(c) || c == ' ' || c == '-' || c == '_'
  }

  /** The characters a safe title is made of. */
  predicate IsSafeChar(c: char) {
    IsAlnum(c) || c == '-' || c == '_'
  }

  /** `"".join(c for c in title if c.isalnum() or c in (' ', '-', '_'))`. */
  function KeepChars(s: string): (r: string)
    ensures |r| <= |s|
    ensures forall i :: 0 <= i < |r| ==> IsKeptChar(r[i])
  {
    if s == [] then [] else (if IsKeptChar(s[0]) then [s[0]] else []) + KeepChars(s[1..])
  }

  /** The filter keeps exactly the kept-class characters of the title:
      none is dropped and nothing else gets through. */
  lemma {:induction false} KeepCharsMembers(s: string)
    ensures forall c :: c in KeepChars(s) <==> c in s && IsKeptChar(c)
  {
    if s != [] {
      KeepCharsMembers(s[1..]);
      assert s == [s[0]] + s[1..];
    }
  }

  /** The filter works character by character, so it keeps the order of
      what it keeps. */
  lemma {:induction false} KeepCharsConcat(a: string, b: string)
    ensures KeepChars(a + b) == KeepChars(a) + KeepChars(b)
  {
    if a != [] {
      assert (a + b)[1..] == a[1..] + b;
      KeepCharsConcat(a[1..], b);
    } else {
      assert a + b == b;
    }
  }

  /** `s.replace(' ', '_')`. */
  function SpacesToUnderscores(s: string): (r: string)
    ensures |r| == |s|
    ensures forall i :: 0 <= i < |s| ==> r[i] == (if s[i] == ' ' then '_' else s[i])
  {
    if s == [] then [] else [if s[0] == ' ' then '_' else s[0]] + SpacesToUnderscores(s[1..])
  }

  /** Lines 344-345: the title reduced to letters, digits, `-` and `_`,
      with trailing spaces dropped and the others turned into `_`. It is
      never longer than the title. */
  function SafeTitle(title: string): (safe: string)
    ensures |safe| <= |title|
    ensures forall i :: 0 <= i < |safe| ==> IsSafeChar(safe[i])
    ensures ' ' !in safe
  {
    var kept := KeepChars(title);
    var stripped := RStrip(kept);
    assert forall i :: 0 <= i < |stripped| ==> IsKeptChar(stripped[i]) by {
      assert forall i :: 0 <= i < |stripped| ==> stripped[i] == kept[i];
    }
    SpacesToUnderscores(stripped)
  }

  /** A title already made of safe characters is kept as it is. */
  lemma {:induction false} KeepCharsClean(s: string)
    requires forall i :: 0 <= i < |s| ==> IsSafeChar(s[i])
    ensures KeepChars(s) == s
  {
    if s != [] {
      KeepCharsClean(s[1..]);
    }
  }

  lemma SafeTitleOfClean(s: string)
    requires forall i :: 0 <= i < |s| ==> IsSafeChar(s[i])
    ensures SafeTitle(s) == s
  {
    KeepCharsClean(s);
    assert RStrip(s) == s;
    assert SpacesToUnderscores(s) == s;
  }

  /** Sanitising twice is sanitising once. */
  lemma SafeTitleIdempotent(title: string)
    ensures SafeTitle(SafeTitle(title)) == SafeTitle(title)
  {
    SafeTitleOfClean(SafeTitle(title));
  }

  /** `f"{index:03d}_{safe_title}.mp4"`. */
  function OutputName(index: nat, title: string): string {
    ZeroPadded(index, 3) + "_" + SafeTitle(title) + ".mp4"
  }

  /** An output name starts with the index in at least three digits, then
      `_`, the safe title and `.mp4`; reading the digits back gives the
      index. */
  lemma OutputNameParts(index: nat, title: string)
    ensures var name := OutputName(index, title);
      var d := ZeroPadded(index, 3);
      |d| >= 3 && name[..|d|] == d && DecimalValue(d) == index &&
      name[|d|] == '_' &&
      name[|d| + 1..|name| - 4] == SafeTitle(title) &&
      name[|name| - 4..] == ".mp4"
  {
    ZeroPaddedRoundTrip(index, 3);
  }

  /** Lessons with different indices are stored under different names. */
  lemma OutputNamesDistinct(i: nat, t: string, j: nat, u: string)
    requires i != j
    ensures OutputName(i, t) != OutputName(j, u)
  {
    var a, b := OutputName(i, t), OutputName(j, u);
    var di, dj := ZeroPadded(i, 3), ZeroPadded(j, 3);
    OutputNameParts(i, t);
    OutputNameParts(j, u);
    if |di| < |dj| {
      assert b[|di|] == dj[|di|];
      assert a[|di|] != b[|di|];
    } else if |dj| < |di| {
      assert a[|dj|] == di[|dj|];
      assert a[|dj|] != b[|dj|];
    } else {
      assert a[..|di|] != b[..|dj|];
    }
  }

  /** A lesson title is kept whole by the character filter and `rstrip`. */
  lemma LessonTitleClean(index: nat)
    ensures RStrip(KeepChars(LessonTitle(index))) == LessonTitle(index)
  {
    var d := ZeroPadded(index, 2);
    var t := LessonTitle(index);
    ZeroPaddedRoundTrip(index, 2);
    assert forall i :: 0 <= i < |t| ==> IsKeptChar(t[i]) by {
      forall i | 0 <= i < |t| ensures IsKeptChar(t[i]) {
        if i >= |TitlePrefix| {
          assert t[i] == d[i - |TitlePrefix|];
        }
      }
    }
    KeepCharsKept(t);
    assert t[|t| - 1] == d[|d| - 1];
  }

  /** A lesson title sanitises to `Lesson_` and its number. */
  lemma SafeLessonTitle(index: nat)
    ensures SafeTitle(LessonTitle(index)) == "Lesson_" + ZeroPadded(index, 2)
  {
    var d := ZeroPadded(index, 2);
    var t := LessonTitle(index);
    LessonTitleClean(index);
    var r := SpacesToUnderscores(t);
    var want := "Lesson_" + d;
    assert |r| == |want|;
    forall i | 0 <= i < |r|
      ensures r[i] == want[i]
    {
      if i >= |TitlePrefix| {
        assert t[i] == d[i - |TitlePrefix|] && IsDigit(t[i]);
      }
    }
  }

  lemma {:induction false} KeepCharsKept(s: string)
    requires forall i :: 0 <= i < |s| ==> IsKeptChar(s[i])
    ensures KeepChars(s) == s
  {
    if s != [] {
      KeepCharsKept(s[1..]);
    }
  }

  lemma PaddedSeven()
    ensures ZeroPadded(7, 2) == "07" && ZeroPadded(7, 3) == "007"
  {
    assert Digits(7) == [DigitChar(7)] == "7";
    assert Zeros(1) == "0";
    assert Zeros(2) == "00";
  }

  /** Lesson k is stored as k in three digits, `_Lesson_`, k in two
      digits and `.mp4`. */
  lemma LessonOutputName(index: nat)
    ensures OutputName(index, LessonTitle(index))
         == ZeroPadded(index, 3) + "_Lesson_" + ZeroPadded(index, 2) + ".mp4"
  {
    SafeLessonTitle(index);
    LessonNameShape(ZeroPadded(index, 3), SafeTitle(LessonTitle(index)), ZeroPadded(index, 2));
  }

  lemma LessonNameShape(p: string, safe: string, d: string)
    requires safe == "Lesson_" + d
    ensures p + "_" + safe + ".mp4" == p + "_Lesson_" + d + ".mp4"
  {
    assert "_" + safe == "_Lesson_" + d;
  }

  /** Lesson 7 is stored as `007_Lesson_07.mp4`. */
  lemma OutputNameExample()
    ensures LessonTitle(7) == "Lesson 07"
    ensures OutputName(7, LessonTitle(7)) == "007_Lesson_07.mp4"
  {
    PaddedSeven();
    LessonOutputName(7);
    var p3, p2 := ZeroPadded(7, 3), ZeroPadded(7, 2);
    assert p3 + "_Lesson_" + p2 + ".mp4" == "007_Lesson_07.mp4";
  }

  const WhopOrigin := "https://whop.com"

  /** Line 151-152: a relative iframe address is made absolute on whop.com. */
  function AbsoluteIframeUrl(src: string): string {
    if StartsWith(src, "/") then WhopOrigin + src else src
  }

  /** The result never starts with `/`, an address that does not start
      with `/` is kept, the result ends with the original address, and
      normalising twice is normalising once. */
  lemma AbsoluteIframeUrlSpec(src: string)
    ensures !StartsWith(AbsoluteIframeUrl(src), "/")
    ensures !StartsWith(src, "/") ==> AbsoluteIframeUrl(src) == src
    ensures |src| <= |AbsoluteIframeUrl(src)|
    ensures AbsoluteIframeUrl(src)[|AbsoluteIframeUrl(src)| - |src|..] == src
    ensures AbsoluteIframeUrl(AbsoluteIframeUrl(src)) == AbsoluteIframeUrl(src)
  {
    var r := AbsoluteIframeUrl(src);
    if StartsWith(src, "/") {
      assert r[0] == 'h';
    }
  }

  /** Lines 147-152: the page the downloader moves to, if any. The lookup
      script yields `null` or an address; an empty address counts as none. */
  function IframeTarget(found: Option<string>): (r: Option<string>)
    ensures r.Some? <==> found.Some? && found.value != []
    ensures r.Some? ==> r.value == AbsoluteIframeUrl(found.value)
  {
    if found.Some? && found.value != [] then Some(AbsoluteIframeUrl(found.value)) else None
  }
}
