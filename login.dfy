/** The login wait of `extract_video_urls` (whop_downloader.py:164-188).

    When the page is a login page the downloader polls the page URL every
    two seconds, adding 2 to `elapsed`, until the URL is no longer a login
    page or `elapsed` reaches 300; it then reports a timeout exactly when
    `elapsed` has reached 300. The URLs seen at the successive polls are an
    input. A login noticed at the 150th poll leaves `elapsed` at 300, so it
    too is reported as a timeout. */
module Login {
  import opened Strings

  const MaxWait := 300
  const PollInterval := 2
  const MaxPolls := MaxWait / PollInterval

  /** Lines 166 and 178: `'login' in url or 'signin' in url`. */
  predicate IsLoginPage(url: string) {
    Contains(url, "login") || Contains(url, "signin")
  }

  /** The wait, given the page URL before it and the URL at each poll.
      Returns whether it timed out and the final `elapsed`. */
  method WaitForLogin(current: string, polls: seq<string>) returns (timedOut: bool, elapsed: nat)
    requires |polls| == MaxPolls
    ensures elapsed % PollInterval == 0 && elapsed <= MaxWait
    ensures timedOut <==> elapsed == MaxWait
    ensures !IsLoginPage(current) ==> elapsed == 0
    ensures IsLoginPage(current) ==> elapsed > 0
    ensures IsLoginPage(current) ==>
      forall k :: 0 <= k < elapsed / PollInterval - 1 ==> IsLoginPage(polls[k])
    ensures IsLoginPage(current) && !timedOut ==> !IsLoginPage(polls[elapsed / PollInterval - 1])
    ensures timedOut <==> IsLoginPage(current) && forall k :: 0 <= k < MaxPolls - 1 ==> IsLoginPage(polls[k])
  {
    elapsed := 0;
    timedOut := false;
    if IsLoginPage(current) {
      while elapsed < MaxWait
        invariant elapsed % PollInterval == 0 && elapsed <= MaxWait
        invariant forall k :: 0 <= k < elapsed / PollInterval ==> IsLoginPage(polls[k])
      {
        elapsed := elapsed + PollInterval;
        var url := polls[elapsed / PollInterval - 1];
        if !IsLoginPage(url) {
          break;
        }
      }
      if elapsed >= MaxWait {
        timedOut := true;
      }
    }
  }
}
