/**
 * `fetchChannelVideos`: page through the playlist API, map every item to a
 * record, drop the placeholders of private and deleted videos, and stop at
 * the last page or once 200 videos have been collected. The HTTP layer is a
 * sequence of responses: the k-th request is answered by `pages[k]`.
 */
module PlaylistFetch {
  import opened Wrappers
  import opened JsStrings
  import opened Seqs
  import opened Videos
  import opened TitleClassifier

  /** The two environment variables; an unset variable is `None`. */
  datatype Config = Config(apiKey: Option<string>, playlistId: Option<string>)

  /**
   * The answer to one page request: `Unavailable` stands for a non-ok HTTP
   * status, a rejected `fetch` and an undecodable body alike.
   */
  datatype Response = Unavailable | Page(items: seq<PlaylistItem>, nextPageToken: Option<string>)

  /** The `maxResults` every request asks for. */
  const MaxResults: nat := 50

  /** Paging stops once this many videos have been collected. */
  const VideoCap: nat := 200

  /** A configuration value that is set, non-empty and not a "dummy" placeholder. */
  predicate Usable(value: Option<string>) {
    value.Some? && value.value != "" && !StartsWith(value.value, "dummy")
  }

  predicate ConfigUsable(config: Config) {
    Usable(config.apiKey) && Usable(config.playlistId)
  }

  /** A record that survives the filter: not the placeholder of a private or deleted video. */
  predicate IsListed(v: Video) {
    v.title != "Private video" && v.title != "Deleted video"
  }

  /** Every item of a page as a record, in item order. */
  function Records(items: seq<PlaylistItem>): (r: seq<Video>)
    ensures |r| == |items|
    ensures forall i :: 0 <= i < |items| ==> r[i] == ItemToVideo(items[i])
  {
    seq(|items|, i requires 0 <= i < |items| => ItemToVideo(items[i]))
  }

  /** The records one page contributes, in item order. */
  function PageVideos(items: seq<PlaylistItem>): seq<Video> {
    Filter(Records(items), IsListed)
  }

  /** The loop condition `nextPageToken && videos.length < 200`. */
  predicate Continues(token: Option<string>, count: nat) {
    Truthy(token) && count < VideoCap
  }

  /**
   * The paging loop from request `k` on, with `acc` collected so far:
   * `None` when a request fails, otherwise the videos collected when the
   * loop stops.
   */
  function FetchFrom(pages: seq<Response>, k: nat, acc: seq<Video>): Option<seq<Video>>
    decreases |pages| - k
  {
    if k >= |pages| then None
    else
      match pages[k]
      case Unavailable => None
      case Page(items, token) =>
        var collected := acc + PageVideos(items);
        if Continues(token, |collected|) then FetchFrom(pages, k + 1, collected) else Some(collected)
  }

  /** What `fetchChannelVideos` resolves to: a failed fetch, like a skipped one, gives `[]`. */
  function PlaylistVideos(config: Config, pages: seq<Response>): seq<Video> {
    if !ConfigUsable(config) then [] else FetchFrom(pages, 0, []).GetOr([])
  }

  /**
   * The fetch loop. `requests` counts the page requests sent; a request
   * beyond the last response is answered by a failure.
   */
  method FetchChannelVideos(config: Config, pages: seq<Response>) returns (videos: seq<Video>, requests: nat)
    ensures videos == PlaylistVideos(config, pages)
    ensures requests == 0 <==> !ConfigUsable(config)
  {
    if !ConfigUsable(config) {
      return [], 0;
    }
    videos := [];
    requests := 0;
    var more := true;
    while more
      invariant requests <= |pages|
      invariant more ==> FetchFrom(pages, 0, []) == FetchFrom(pages, requests, videos)
      invariant !more ==> FetchFrom(pages, 0, []) == Some(videos) && requests >= 1
      decreases |pages| - requests, more
    {
      if requests == |pages| {
        return [], requests + 1;
      }
      var response := pages[requests];
      requests := requests + 1;
      match response
      case Unavailable =>
        return [], requests;
      case Page(items, token) =>
        var pageVideos := MapItems(items);
        var validVideos := Filter(pageVideos, IsListed);
        videos := videos + validVideos;
        more := Continues(token, |videos|);
    }
  }

  /** The `items.map(...)` step: each playlist item converted in order. */
  method MapItems(items: seq<PlaylistItem>) returns (pageVideos: seq<Video>)
    ensures pageVideos == Records(items)
  {
    pageVideos := [];
    for j := 0 to |items|
      invariant |pageVideos| == j
      invariant forall i :: 0 <= i < j ==> pageVideos[i] == ItemToVideo(items[i])
    {
      var v := ToVideo(items[j]);
      pageVideos := pageVideos + [v];
    }
  }

  // ---------------------------------------------------------------------------
  // What every fetched record satisfies

  lemma {:induction false} FetchFromRecords(pages: seq<Response>, k: nat, acc: seq<Video>)
    requires forall v :: v in acc ==> IsListed(v) && v.Complete()
    ensures FetchFrom(pages, k, acc).Some? ==>
              forall v :: v in FetchFrom(pages, k, acc).value ==> IsListed(v) && v.Complete()
    decreases |pages| - k
  {
    if k < |pages| && pages[k].Page? {
      var items := pages[k].items;
      var collected := acc + PageVideos(items);
      forall v | v in collected ensures IsListed(v) && v.Complete() {
        if v !in acc {
          assert v in PageVideos(items);
          assert v in Records(items);
        }
      }
      FetchFromRecords(pages, k + 1, collected);
    }
  }

  /**
   * No fetched record carries the title "Private video" or "Deleted video",
   * and every fetched record has all its optional fields.
   */
  lemma FetchedRecordsListed(config: Config, pages: seq<Response>)
    ensures forall v :: v in PlaylistVideos(config, pages) ==>
              v.title != "Private video" && v.title != "Deleted video" && v.Complete()
  {
    FetchFromRecords(pages, 0, []);
  }

  /**
   * An item titled "Private video", or "private video" (which capitalises
   * to it), contributes nothing to its page.
   */
  lemma PrivateItemDropped(item: PlaylistItem)
    requires item.title == "Private video" || item.title == "private video"
    ensures PageVideos([item]) == []
  {
    PrivateVideoExample();
    LowerCasePrivateTitle();
    assert !IsListed(Records([item])[0]);
  }

  // ---------------------------------------------------------------------------
  // Size bound

  /** Every page holds at most `maxResults` items, as the API promises. */
  predicate PagesWithinMaxResults(pages: seq<Response>) {
    forall k :: 0 <= k < |pages| && pages[k].Page? ==> |pages[k].items| <= MaxResults
  }

  lemma {:induction false} FetchFromBound(pages: seq<Response>, k: nat, acc: seq<Video>)
    requires PagesWithinMaxResults(pages)
    requires |acc| < VideoCap
    ensures FetchFrom(pages, k, acc).Some? ==> |FetchFrom(pages, k, acc).value| < VideoCap + MaxResults
    decreases |pages| - k
  {
    if k < |pages| && pages[k].Page? {
      var collected := acc + PageVideos(pages[k].items);
      if Continues(pages[k].nextPageToken, |collected|) {
        FetchFromBound(pages, k + 1, collected);
      }
    }
  }

  /** With at most 50 items a page, the fetch returns fewer than 250 videos. */
  lemma FetchBounded(config: Config, pages: seq<Response>)
    requires PagesWithinMaxResults(pages)
    ensures |PlaylistVideos(config, pages)| < VideoCap + MaxResults
  {
    FetchFromBound(pages, 0, []);
  }

  // ---------------------------------------------------------------------------
  // All pages or nothing

  /** The records of the pages `ps`, concatenated in order. */
  function Collected(ps: seq<Response>): seq<Video> {
    if ps == [] then []
    else Collected(ps[..|ps| - 1]) + (if ps[|ps| - 1].Page? then PageVideos(ps[|ps| - 1].items) else [])
  }

  /** Reading one more page appends that page's records. */
  lemma CollectedStep(pages: seq<Response>, k: nat)
    requires k < |pages| && pages[k].Page?
    ensures Collected(pages[..k + 1]) == Collected(pages[..k]) + PageVideos(pages[k].items)
  {
    assert pages[..k + 1][..k] == pages[..k];
  }

  /** The loop reaches request `k`: every earlier response is a page that asked for more. */
  ghost predicate Reaches(pages: seq<Response>, k: nat) {
    k <= |pages| &&
    forall i :: 0 <= i < k ==>
      pages[i].Page? && Continues(pages[i].nextPageToken, |Collected(pages[..i + 1])|)
  }

  lemma {:induction false} FetchFromReached(pages: seq<Response>, k: nat)
    requires Reaches(pages, k)
    ensures FetchFrom(pages, 0, []) == FetchFrom(pages, k, Collected(pages[..k]))
  {
    if k > 0 {
      FetchFromReached(pages, k - 1);
      CollectedStep(pages, k - 1);
    }
  }

  /**
   * Fail-closed: when the loop reaches a request that fails, the videos
   * from every earlier page are discarded and the result is `[]`.
   */
  lemma FailureDiscardsEarlierPages(config: Config, pages: seq<Response>, k: nat)
    requires Reaches(pages, k)
    requires k == |pages| || pages[k].Unavailable?
    ensures PlaylistVideos(config, pages) == []
  {
    FetchFromReached(pages, k);
  }

  /**
   * A successful fetch returns the records of a whole run of pages, from
   * the first up to the page where the loop stopped: one without a next
   * token, or the one that brought the total to 200 or more.
   */
  lemma FetchReturnsWholePages(config: Config, pages: seq<Response>)
    requires ConfigUsable(config) && FetchFrom(pages, 0, []).Some?
    ensures exists m :: StopsAfter(pages, m, PlaylistVideos(config, pages))
  {
    assert Reaches(pages, 0);
    var m := StopPage(pages, 0);
    assert StopsAfter(pages, m, PlaylistVideos(config, pages));
  }

  /** The loop ran through request `m - 1` and stopped there, having collected `vs`. */
  ghost predicate StopsAfter(pages: seq<Response>, m: nat, vs: seq<Video>) {
    && 1 <= m <= |pages|
    && Reaches(pages, m - 1)
    && pages[m - 1].Page?
    && vs == Collected(pages[..m])
    && !Continues(pages[m - 1].nextPageToken, |vs|)
  }

  /** The request after which a fetch starting at request `k` stops. */
  lemma {:induction false} StopPage(pages: seq<Response>, k: nat) returns (m: nat)
    requires Reaches(pages, k)
    requires FetchFrom(pages, k, Collected(pages[..k])).Some?
    ensures k < m <= |pages| && Reaches(pages, m - 1) && pages[m - 1].Page?
    ensures FetchFrom(pages, k, Collected(pages[..k])) == Some(Collected(pages[..m]))
    ensures !Continues(pages[m - 1].nextPageToken, |Collected(pages[..m])|)
    decreases |pages| - k
  {
    var token := pages[k].nextPageToken;
    CollectedStep(pages, k);
    var collected := Collected(pages[..k + 1]);
    assert FetchFrom(pages, k, Collected(pages[..k]))
        == if Continues(token, |collected|) then FetchFrom(pages, k + 1, collected) else Some(collected);
    if Continues(token, |collected|) {
      ReachesStep(pages, k);
      m := StopPage(pages, k + 1);
    } else {
      m := k + 1;
    }
  }

  lemma ReachesStep(pages: seq<Response>, k: nat)
    requires Reaches(pages, k) && k < |pages| && pages[k].Page?
    requires Continues(pages[k].nextPageToken, |Collected(pages[..k + 1])|)
    ensures Reaches(pages, k + 1)
  {
  }
}
