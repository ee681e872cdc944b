/**
 * Which of the remote server's URLs the extension shows: the status bar
 * and the copy command prefer a network address over `localhost`, and
 * the start-up message shows the second URL. Both use JavaScript's
 * `a || b`, where an absent or empty string falls through to `b`; None
 * stands for `undefined`.
 */
module RemoteUrl {

  import opened Wrappers
  import opened JsString

  predicate IsLocal(url: string) {
    Contains(url, "localhost")
  }

  /** `urls.find(u => !u.includes('localhost'))`: the index of the first non-local URL, or -1. */
  function FindNonLocal(urls: seq<string>): (r: int)
    ensures r == -1 <==> forall i :: 0 <= i < |urls| ==> IsLocal(urls[i])
    ensures r != -1 ==> 0 <= r < |urls| && !IsLocal(urls[r]) && forall i :: 0 <= i < r ==> IsLocal(urls[i])
  {
    if |urls| == 0 then -1
    else if !IsLocal(urls[0]) then 0
    else
      var r := FindNonLocal(urls[1..]);
      assert forall i :: 1 <= i < |urls| ==> urls[i] == urls[1..][i - 1];
      if r == -1 then -1 else r + 1
  }

  /** `x || y` on optional strings: `x` unless it is absent or empty. */
  function OrElse(x: Option<string>, y: Option<string>): Option<string> {
    if x.Some? && x.value != "" then x else y
  }

  function At(urls: seq<string>, i: nat): Option<string> {
    if i < |urls| then Some(urls[i]) else None
  }

  /** `info.urls.find(u => !u.includes('localhost')) || info.urls[0]`. */
  function NetworkUrl(urls: seq<string>): (u: Option<string>)
    ensures u.None? <==> |urls| == 0
    ensures u.Some? ==> u.value in urls
  {
    var i := FindNonLocal(urls);
    OrElse(if i == -1 then None else Some(urls[i]), At(urls, 0))
  }

  /**
   * The URL shown is the first non-local one when that one is not empty,
   * and every URL before it is local; otherwise the first URL is shown,
   * and nothing when there is none.
   */
  lemma NetworkUrlPrefersNetwork(urls: seq<string>)
    ensures var u := NetworkUrl(urls);
            && (u.None? <==> |urls| == 0)
            && (u.Some? ==> u.value in urls)
            && ((exists i :: 0 <= i < |urls| && !IsLocal(urls[i]) && urls[i] != ""
                             && forall j :: 0 <= j < i ==> IsLocal(urls[j]))
                ==> u.Some? && !IsLocal(u.value) && u.value != "")
            && (u.Some? && u.value != urls[0] ==> !IsLocal(u.value))
            && (FindNonLocal(urls) != -1 && urls[FindNonLocal(urls)] != ""
                ==> u == Some(urls[FindNonLocal(urls)]))
            && (FindNonLocal(urls) == -1 && |urls| > 0 ==> u == Some(urls[0]))
  {
    var k := FindNonLocal(urls);
    if exists i :: 0 <= i < |urls| && !IsLocal(urls[i]) && urls[i] != "" && forall j :: 0 <= j < i ==> IsLocal(urls[j]) {
      var i :| 0 <= i < |urls| && !IsLocal(urls[i]) && urls[i] != "" && forall j :: 0 <= j < i ==> IsLocal(urls[j]);
      assert k == i;
    }
  }

  /** An empty string is not local, so an empty first non-local URL falls back to the first URL. */
  lemma EmptyUrlFallsBack(urls: seq<string>)
    requires |urls| > 0 && FindNonLocal(urls) != -1 && urls[FindNonLocal(urls)] == ""
    ensures NetworkUrl(urls) == Some(urls[0])
  {
  }

  /** `info.urls[1] || info.urls[0]` in the start-up message. */
  function StartedUrl(urls: seq<string>): (u: Option<string>)
    ensures u.None? <==> |urls| == 0
    ensures u.Some? ==> u.value in urls[..if |urls| < 2 then |urls| else 2]
    ensures |urls| >= 2 && urls[1] != "" ==> u == Some(urls[1])
    ensures |urls| >= 1 && (|urls| < 2 || urls[1] == "") ==> u == Some(urls[0])
  {
    OrElse(At(urls, 1), At(urls, 0))
  }
}
