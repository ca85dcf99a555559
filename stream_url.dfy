/**
 * Choosing the stream URL of a video once its player is on the page. The `src`
 * attribute of the `<video>` element is read up to ten times, stopping at the
 * first non-blank value; if that leaves no URL, the first `<source>` child with a
 * non-empty `src` is taken. A download follows only for a non-blank URL.
 *
 * The page is given as the attribute values the reads return: `polls[k]` is
 * what the k-th read of the video's `src` gives and `sources` what the reads of
 * the `<source>` children give, in document order. A read that raises ends the
 * attempt for this video (the handler that reports a player failure).
 */
module StreamUrl {
  import opened Optional
  import opened Text

  const MAX_POLLS: nat := 10

  /** The result of one `get_attribute("src")`: `None`, a string, or an exception. */
  datatype Attr = Absent | Value(s: string) | Raised

  /** The value a read leaves in the variable; a read that raises leaves none. */
  function AsOption(a: Attr): Option<string>
  {
    if a.Value? then Some(a.s) else None
  }

  /** The test `video_url and video_url.strip()`. */
  predicate Usable(cls: CharClasses, url: Option<string>)
  {
    url.Some? && url.value != [] && !IsBlank(cls, url.value)
  }

  /** A read that ends the polling loop: it raised, or it gave a usable URL. */
  predicate PollStops(cls: CharClasses, a: Attr)
  {
    a.Raised? || (a.Value? && Usable(cls, Some(a.s)))
  }

  /** None of the first `n` reads ends the polling loop. */
  predicate PollQuiet(cls: CharClasses, polls: seq<Attr>, n: nat)
    requires n <= |polls|
  {
    forall j :: 0 <= j < n ==> !PollStops(cls, polls[j])
  }

  /** How the polling loop ended: a read raised, or it left `video_url` after `attempts` reads. */
  datatype PollOutcome = PollRaised | Polled(url: Option<string>, attempts: nat)

  /** The polling loop from attempt `k` on, `last` being the value read at attempt `k - 1`. */
  function PollFrom(cls: CharClasses, polls: seq<Attr>, k: nat, last: Option<string>): (out: PollOutcome)
    requires MAX_POLLS <= |polls| && k <= MAX_POLLS
    ensures out.Polled? ==> k <= out.attempts <= MAX_POLLS && (k < MAX_POLLS ==> k < out.attempts)
    decreases MAX_POLLS - k
  {
    if k == MAX_POLLS then Polled(last, k)
    else match polls[k]
      case Raised => PollRaised
      case Absent => PollFrom(cls, polls, k + 1, None)
      case Value(s) =>
        if Usable(cls, Some(s)) then Polled(Some(s), k + 1) else PollFrom(cls, polls, k + 1, Some(s))
  }

  function Poll(cls: CharClasses, polls: seq<Attr>): (out: PollOutcome)
    requires MAX_POLLS <= |polls|
    ensures out.Polled? ==> 1 <= out.attempts <= MAX_POLLS
  {
    PollFrom(cls, polls, 0, None)
  }

  /** The polling loop, reading `polls` in order. */
  method PollSrc(cls: CharClasses, polls: seq<Attr>) returns (out: PollOutcome)
    requires MAX_POLLS <= |polls|
    ensures out == Poll(cls, polls)
  {
    var waitTime: nat := 0;
    var videoUrl: Option<string> := None;
    while waitTime < MAX_POLLS
      invariant waitTime <= MAX_POLLS
      invariant PollFrom(cls, polls, waitTime, videoUrl) == Poll(cls, polls)
    {
      PollFromStep(cls, polls, waitTime, videoUrl);
      match polls[waitTime] {
        case Raised => return PollRaised;
        case Absent => videoUrl := None;
        case Value(s) => videoUrl := Some(s);
      }
      if Usable(cls, videoUrl) {
        return Polled(videoUrl, waitTime + 1);
      }
      waitTime := waitTime + 1;
    }
    out := Polled(videoUrl, waitTime);
  }

  /** One step of the polling loop: attempt `k` either ends it or hands its value to attempt `k + 1`. */
  lemma PollFromStep(cls: CharClasses, polls: seq<Attr>, k: nat, last: Option<string>)
    requires MAX_POLLS <= |polls| && k < MAX_POLLS
    ensures PollFrom(cls, polls, k, last) ==
      if polls[k].Raised? then PollRaised
      else if Usable(cls, AsOption(polls[k])) then Polled(AsOption(polls[k]), k + 1)
      else PollFrom(cls, polls, k + 1, AsOption(polls[k]))
  {
  }

  /**
   * The first attempt from `k` on whose read ends the polling loop, or
   * `MAX_POLLS` when none of them does.
   */
  function FirstPollStop(cls: CharClasses, polls: seq<Attr>, k: nat): (j: nat)
    requires MAX_POLLS <= |polls| && k <= MAX_POLLS
    ensures k <= j <= MAX_POLLS
    ensures forall i :: k <= i < j ==> !PollStops(cls, polls[i])
    ensures j < MAX_POLLS ==> PollStops(cls, polls[j])
    decreases MAX_POLLS - k
  {
    if k == MAX_POLLS || PollStops(cls, polls[k]) then k else FirstPollStop(cls, polls, k + 1)
  }

  /** How the loop ends when attempt `j` is the first to stop it (`MAX_POLLS`: none does). */
  function PollEnd(polls: seq<Attr>, j: nat): PollOutcome
    requires MAX_POLLS <= |polls| && j <= MAX_POLLS
  {
    if j == MAX_POLLS then Polled(AsOption(polls[MAX_POLLS - 1]), MAX_POLLS)
    else if polls[j].Raised? then PollRaised
    else Polled(AsOption(polls[j]), j + 1)
  }

  lemma {:induction false} PollFromEndsAtFirstStop(cls: CharClasses, polls: seq<Attr>, k: nat, last: Option<string>)
    requires MAX_POLLS <= |polls| && k <= MAX_POLLS
    requires k > 0 ==> last == AsOption(polls[k - 1])
    ensures PollFrom(cls, polls, k, last) == PollEnd(polls, FirstPollStop(cls, polls, k))
    decreases MAX_POLLS - k
  {
    if k < MAX_POLLS {
      var a := polls[k];
      if PollStops(cls, a) {
        assert FirstPollStop(cls, polls, k) == k;
      } else {
        assert PollFrom(cls, polls, k, last) == PollFrom(cls, polls, k + 1, AsOption(a));
        PollFromEndsAtFirstStop(cls, polls, k + 1, AsOption(a));
      }
    }
  }

  /**
   * The polling loop stops at its first read that raises or gives a non-blank
   * value; when there is none it makes exactly `MAX_POLLS` attempts and keeps
   * the value of the last one.
   */
  lemma PollStopsAtFirst(cls: CharClasses, polls: seq<Attr>)
    requires MAX_POLLS <= |polls|
    ensures Poll(cls, polls) == PollEnd(polls, FirstPollStop(cls, polls, 0))
  {
    PollFromEndsAtFirstStop(cls, polls, 0, None);
  }

  /** The first stop is the attempt `k` whenever all attempts before `k` are quiet and `k` stops. */
  lemma FirstPollStopAt(cls: CharClasses, polls: seq<Attr>, k: nat)
    requires MAX_POLLS <= |polls| && k <= MAX_POLLS
    requires PollQuiet(cls, polls, k)
    requires k < MAX_POLLS ==> PollStops(cls, polls[k])
    ensures FirstPollStop(cls, polls, 0) == k
  {
  }

  /** How the search of the `<source>` children ended. */
  datatype SourceOutcome = SourcesRaised | NoSource | FoundSource(src: string)

  /** The test `if src:` of the fallback loop, or a read that raises. */
  predicate SourceStops(a: Attr)
  {
    a.Raised? || (a.Value? && a.s != [])
  }

  /** The fallback loop over the `<source>` children, which breaks at the first non-empty `src`. */
  function FirstSource(sources: seq<Attr>): (out: SourceOutcome)
    ensures out.FoundSource? ==> out.src != [] && Value(out.src) in sources
  {
    if sources == [] then NoSource
    else match sources[0]
      case Raised => SourcesRaised
      case Absent => FirstSource(sources[1..])
      case Value(s) => if s != [] then FoundSource(s) else FirstSource(sources[1..])
  }

  method FirstSourceSrc(sources: seq<Attr>) returns (out: SourceOutcome)
    ensures out == FirstSource(sources)
  {
    for i := 0 to |sources|
      invariant FirstSource(sources[i..]) == FirstSource(sources)
    {
      assert sources[i..][1..] == sources[i + 1..];
      match sources[i] {
        case Raised => return SourcesRaised;
        case Absent =>
        case Value(src) =>
          if src != [] {
            return FoundSource(src);
          }
      }
    }
    out := NoSource;
  }

  /** The first child from `k` on whose read raises or gives a non-empty `src`, or `|sources|`. */
  function FirstSourceStop(sources: seq<Attr>, k: nat): (j: nat)
    requires k <= |sources|
    ensures k <= j <= |sources|
    ensures forall i :: k <= i < j ==> !SourceStops(sources[i])
    ensures j < |sources| ==> SourceStops(sources[j])
    decreases |sources| - k
  {
    if k == |sources| || SourceStops(sources[k]) then k else FirstSourceStop(sources, k + 1)
  }

  function SourceEnd(sources: seq<Attr>, j: nat): SourceOutcome
    requires j <= |sources| && (j < |sources| ==> SourceStops(sources[j]))
  {
    if j == |sources| then NoSource
    else if sources[j].Raised? then SourcesRaised
    else FoundSource(sources[j].s)
  }

  lemma {:induction false} FirstSourceFrom(sources: seq<Attr>, k: nat)
    requires k <= |sources|
    ensures FirstSource(sources[k..]) == SourceEnd(sources, FirstSourceStop(sources, k))
    decreases |sources| - k
  {
    if k < |sources| && !SourceStops(sources[k]) {
      assert sources[k..][1..] == sources[k + 1..];
      FirstSourceFrom(sources, k + 1);
    }
  }

  /** The search ends at the first child whose read raises or gives a non-empty `src`. */
  lemma FirstSourceStopsAtFirst(sources: seq<Attr>)
    ensures FirstSource(sources) == SourceEnd(sources, FirstSourceStop(sources, 0))
  {
    FirstSourceFrom(sources, 0);
  }

  /** The decision for one video: give up on it, download from `url`, or report that no URL was found. */
  datatype Selection = Aborted | Fetch(url: string) | NotFound(found: Option<string>)

  /** The test before `download_file` is called. */
  function Finish(cls: CharClasses, url: Option<string>): (sel: Selection)
    ensures sel.Fetch? <==> Usable(cls, url)
    ensures sel.Fetch? ==> url == Some(sel.url)
  {
    if url.Some? && url.value != [] && !IsBlank(cls, url.value) then Fetch(url.value) else NotFound(url)
  }

  /** Polling, then the fallback when polling left no value (`not video_url`), then the final test. */
  function Select(cls: CharClasses, polls: seq<Attr>, sources: seq<Attr>): (sel: Selection)
    requires MAX_POLLS <= |polls|
    ensures sel.Fetch? ==> sel.url != [] && !IsBlank(cls, sel.url)
  {
    match Poll(cls, polls)
    case PollRaised => Aborted
    case Polled(url, _) =>
      if url.None? || url.value == [] then
        match FirstSource(sources)
        case SourcesRaised => Aborted
        case NoSource => Finish(cls, url)
        case FoundSource(src) => Finish(cls, Some(src))
      else
        Finish(cls, url)
  }

  method SelectStreamUrl(cls: CharClasses, polls: seq<Attr>, sources: seq<Attr>) returns (sel: Selection)
    requires MAX_POLLS <= |polls|
    ensures sel == Select(cls, polls, sources)
  {
    var polled := PollSrc(cls, polls);
    if polled.PollRaised? {
      return Aborted;
    }
    var videoUrl := polled.url;
    if videoUrl.None? || videoUrl.value == [] {
      var found := FirstSourceSrc(sources);
      match found {
        case SourcesRaised => return Aborted;
        case NoSource =>
        case FoundSource(src) => videoUrl := Some(src);
      }
    }
    sel := Finish(cls, videoUrl);
  }

  /** A URL that polling found is used as it is, and the `<source>` children are never read. */
  lemma SelectPolledUrl(cls: CharClasses, polls: seq<Attr>, sources: seq<Attr>, k: nat)
    requires MAX_POLLS <= |polls| && k < MAX_POLLS
    requires PollQuiet(cls, polls, k) && polls[k].Value? && Usable(cls, Some(polls[k].s))
    ensures Select(cls, polls, sources) == Fetch(polls[k].s)
  {
    PollStopsAtFirst(cls, polls);
    FirstPollStopAt(cls, polls, k);
  }

  /**
   * When no poll stopped the loop and the last one left `None` or the empty
   * string, the first `<source>` child with a non-empty `src` decides, provided
   * no read raised before it; the download follows only if that value is not blank.
   */
  lemma SelectFallback(cls: CharClasses, polls: seq<Attr>, sources: seq<Attr>, k: nat)
    requires MAX_POLLS <= |polls|
    requires PollQuiet(cls, polls, MAX_POLLS)
    requires polls[MAX_POLLS - 1] == Absent || polls[MAX_POLLS - 1] == Value([])
    requires k < |sources| && sources[k].Value? && sources[k].s != []
    requires forall j :: 0 <= j < k ==> !SourceStops(sources[j])
    ensures Select(cls, polls, sources) == Finish(cls, Some(sources[k].s))
  {
    PollStopsAtFirst(cls, polls);
    FirstPollStopAt(cls, polls, MAX_POLLS);
    assert Poll(cls, polls) == Polled(AsOption(polls[MAX_POLLS - 1]), MAX_POLLS);
    FirstSourceStopsAtFirst(sources);
    assert FirstSourceStop(sources, 0) == k;
  }

  /**
   * As written, the fallback runs only when `video_url` is `None` or empty: a
   * last poll that gave a non-empty but blank value suppresses it, and no
   * download follows, whatever the `<source>` children hold.
   */
  lemma BlankPollSuppressesFallback(cls: CharClasses, polls: seq<Attr>, sources: seq<Attr>)
    requires MAX_POLLS <= |polls|
    requires PollQuiet(cls, polls, MAX_POLLS)
    requires polls[MAX_POLLS - 1].Value? && polls[MAX_POLLS - 1].s != []
    ensures Select(cls, polls, sources) == NotFound(Some(polls[MAX_POLLS - 1].s))
  {
    PollStopsAtFirst(cls, polls);
    FirstPollStopAt(cls, polls, MAX_POLLS);
    assert !PollStops(cls, polls[MAX_POLLS - 1]);
  }

  /**
   * A URL that is downloaded was read either by the first poll that stopped
   * the loop, or, after ten quiet polls, from the first `<source>` child that
   * stopped the search.
   */
  lemma SelectFetchOrigin(cls: CharClasses, polls: seq<Attr>, sources: seq<Attr>)
    requires MAX_POLLS <= |polls|
    ensures var sel := Select(cls, polls, sources);
      sel.Fetch? ==>
        || (exists k :: 0 <= k < MAX_POLLS && PollQuiet(cls, polls, k) && polls[k] == Value(sel.url))
        || (&& PollQuiet(cls, polls, MAX_POLLS)
            && exists k :: 0 <= k < |sources| && sources[k] == Value(sel.url) &&
                 forall j :: 0 <= j < k ==> !SourceStops(sources[j]))
  {
    var sel := Select(cls, polls, sources);
    if !sel.Fetch? {
      return;
    }
    var u := sel.url;
    PollStopsAtFirst(cls, polls);
    var j := FirstPollStop(cls, polls, 0);
    if j < MAX_POLLS {
      assert polls[j] == Value(u);
    } else {
      FirstSourceStopsAtFirst(sources);
      var m := FirstSourceStop(sources, 0);
      assert !PollStops(cls, polls[MAX_POLLS - 1]);
      assert polls[MAX_POLLS - 1] != Value(u);
      assert sources[m] == Value(u);
    }
  }
}
