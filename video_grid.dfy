/**
 * `VideoGrid`: the stored videos narrowed by a case-insensitive search on
 * the title, each shown as a link to its video page.
 */
module VideoGrid {
  import opened Wrappers
  import opened JsStrings
  import opened Seqs
  import opened Videos
  import opened VideoCard

  /** The filter test: the lower-cased title includes the lower-cased query. */
  predicate TitleMatches(v: Video, searchQuery: string) {
    Contains(Lower(v.title), Lower(searchQuery))
  }

  /** `filteredVideos`. */
  function GridFilter(videos: seq<Video>, searchQuery: string): seq<Video> {
    Filter(videos, v => TitleMatches(v, searchQuery))
  }

  /** What the grid renders: one link per match, or the no-match message. */
  datatype GridView = Links(hrefs: seq<string>) | NoMatches

  function Grid(videos: seq<Video>, searchQuery: string): GridView {
    var found := GridFilter(videos, searchQuery);
    if |found| > 0 then Links(seq(|found|, i requires 0 <= i < |found| => VideoHref(found[i].id)))
    else NoMatches
  }

  /**
   * A video is shown exactly when it is one of the given videos and the
   * lower-cased query occurs in its lower-cased title; the shown videos
   * keep their order.
   */
  lemma GridFilterIff(videos: seq<Video>, searchQuery: string)
    ensures forall v :: v in GridFilter(videos, searchQuery) <==>
              v in videos && Substring(Lower(searchQuery), Lower(v.title))
    ensures IsSubsequence(GridFilter(videos, searchQuery), videos)
  {
    forall v | v in videos ensures TitleMatches(v, searchQuery) <==> Substring(Lower(searchQuery), Lower(v.title)) {
      ContainsAt(Lower(v.title), Lower(searchQuery));
    }
    FilterIsSubsequence(videos, v => TitleMatches(v, searchQuery));
  }

  /** The empty search box shows every video. */
  lemma EmptyQueryKeepsAll(videos: seq<Video>)
    ensures GridFilter(videos, "") == videos
  {
    forall i | 0 <= i < |videos| ensures TitleMatches(videos[i], "") {
      ContainsEmpty(Lower(videos[i].title));
    }
    FilterKeepsAll(videos, v => TitleMatches(v, ""));
  }

  /** The search ignores the case of the query. */
  lemma QueryCaseIgnored(videos: seq<Video>, searchQuery: string)
    ensures GridFilter(videos, Lower(searchQuery)) == GridFilter(videos, searchQuery)
  {
    LowerIdempotent(searchQuery);
    FilterCongruent(videos, v => TitleMatches(v, Lower(searchQuery)), v => TitleMatches(v, searchQuery));
  }

  /** Typing more characters never brings back a video the shorter query hid. */
  lemma LongerQueryNarrows(videos: seq<Video>, searchQuery: string, more: string)
    ensures forall v :: v in GridFilter(videos, searchQuery + more) ==> v in GridFilter(videos, searchQuery)
  {
    LowerAppend(searchQuery, more);
    forall v | v in GridFilter(videos, searchQuery + more) ensures v in GridFilter(videos, searchQuery) {
      ContainsPrefixOfSub(Lower(v.title), Lower(searchQuery), Lower(more));
    }
  }

  /** Each link of the grid leads to the page of the video in that position. */
  lemma GridLinks(videos: seq<Video>, searchQuery: string)
    ensures Grid(videos, searchQuery).NoMatches? <==> |GridFilter(videos, searchQuery)| == 0
    ensures Grid(videos, searchQuery).Links? ==>
              var found := GridFilter(videos, searchQuery);
              var hrefs := Grid(videos, searchQuery).hrefs;
              |hrefs| == |found| && forall i :: 0 <= i < |hrefs| ==> VideoIdOfHref(hrefs[i]) == Some(found[i].id)
  {
    var found := GridFilter(videos, searchQuery);
    forall i | 0 <= i < |found| ensures VideoIdOfHref(VideoHref(found[i].id)) == Some(found[i].id) {
      VideoHrefRoundTrip(found[i].id, found[i].id);
    }
  }
}
