/**
 * The home page: six built-in sample videos, filtered by the `q` and `date`
 * search parameters, shown either as search results or as the "latest"
 * pair followed by the earlier ones.
 */
module HomePage {
  import opened Wrappers
  import opened JsStrings
  import opened Seqs

  /** One entry of the page's built-in sample list. */
  datatype MockVideo = MockVideo(
    id: string,
    title: string,
    date: string,
    duration: string,
    instructor: string,
    tags: seq<string>)

  const MockVideos: seq<MockVideo> := [
    MockVideo("1", "Armbar från Guard (Grund)", "2023-10-24", "04:20", "Pelle", ["Armbar", "Closed Guard", "Gi"]),
    MockVideo("2", "Triangle framifrån (Detaljer)", "2023-10-24", "06:15", "Pelle", ["Triangle", "Closed Guard", "Gi"]),
    MockVideo("3", "De la Riva sweep till mount", "2023-10-22", "03:45", "Lisa", ["Sweep", "Open Guard", "No-Gi"]),
    MockVideo("4", "Kimura från Side Control", "2023-10-20", "05:00", "Kalle", ["Kimura", "Side Control", "Submission"]),
    MockVideo("5", "Ryggtagning från Turtle", "2023-10-18", "07:30", "David", ["Back Take", "Turtle", "No-Gi"]),
    MockVideo("6", "Armbar från Mount", "2023-10-18", "04:10", "David", ["Submission", "Mount", "Gi"])
  ]

  /** A search parameter: absent, given once, or repeated (an array). */
  datatype Param = Missing | One(value: string) | Many(values: seq<string>)

  /** `q`: the lower-cased parameter when it is a single string, `""` otherwise. */
  function Query(q: Param): string {
    if q.One? then Lower(q.value) else ""
  }

  /** `dateResult`: the parameter when it is a single string. */
  function DateFilter(date: Param): Option<string> {
    if date.One? then Some(date.value) else None
  }

  /** `dateResult` is truthy. */
  predicate HasDate(date: Option<string>) {
    date.Some? && date.value != ""
  }

  /** `matchesQuery`: no query, or it occurs in the title, a tag or the instructor, all lower-cased. */
  predicate MatchesQuery(v: MockVideo, q: string) {
    q == ""
    || Contains(Lower(v.title), q)
    || (exists i :: 0 <= i < |v.tags| && Contains(Lower(v.tags[i]), q))
    || Contains(Lower(v.instructor), q)
  }

  /** `matchesDate`: no date, or exactly that date. */
  predicate MatchesDate(v: MockVideo, date: Option<string>) {
    !HasDate(date) || v.date == date.value
  }

  /** `filteredVideos`. */
  function Filtered(videos: seq<MockVideo>, q: string, date: Option<string>): seq<MockVideo> {
    Filter(videos, v => MatchesQuery(v, q) && MatchesDate(v, date))
  }

  /** `isFiltering`. */
  predicate Filtering(q: string, date: Option<string>) {
    q != "" || HasDate(date)
  }

  /** The page heading. */
  function Heading(q: string, date: Option<string>): string {
    if Filtering(q, date) then "Sökresultat" else "Senaste passet"
  }

  /** What the page body shows. */
  datatype View =
    | NoResults
    | SearchResults(shown: seq<MockVideo>)
    | Latest(latest: seq<MockVideo>, earlier: seq<MockVideo>)

  /** `slice(0, 2)`. */
  function LatestCount(n: nat): nat {
    if n < 2 then n else 2
  }

  /** The body for the given search parameters. */
  function HomeView(videos: seq<MockVideo>, qParam: Param, dateParam: Param): View {
    var q := Query(qParam);
    var date := DateFilter(dateParam);
    var found := Filtered(videos, q, date);
    if |found| == 0 then NoResults
    else if Filtering(q, date) then SearchResults(found)
    else Latest(found[..LatestCount(|found|)], found[LatestCount(|found|)..])
  }

  // ---------------------------------------------------------------------------
  // The filter

  /**
   * A video matches a query exactly when the query is empty or occurs in
   * its lower-cased title, in one of its lower-cased tags, or in its
   * lower-cased instructor.
   */
  lemma MatchesQueryIff(v: MockVideo, q: string)
    ensures MatchesQuery(v, q) <==>
              q == ""
              || Substring(q, Lower(v.title))
              || (exists i :: 0 <= i < |v.tags| && Substring(q, Lower(v.tags[i])))
              || Substring(q, Lower(v.instructor))
  {
    ContainsAt(Lower(v.title), q);
    ContainsAt(Lower(v.instructor), q);
    forall i | 0 <= i < |v.tags| ensures Contains(Lower(v.tags[i]), q) <==> Substring(q, Lower(v.tags[i])) {
      ContainsAt(Lower(v.tags[i]), q);
    }
  }

  /** With no query and no date every video is listed, in order. */
  lemma NoFilterKeepsAll(videos: seq<MockVideo>)
    ensures Filtered(videos, "", None) == videos
  {
    FilterKeepsAll(videos, v => MatchesQuery(v, "") && MatchesDate(v, None));
  }

  /** The date filter keeps exactly the videos of that date. */
  lemma DateFilterExact(videos: seq<MockVideo>, date: string)
    requires date != ""
    ensures forall v :: v in Filtered(videos, "", Some(date)) <==> v in videos && v.date == date
  {
  }

  /** An empty `date` parameter filters nothing, like a missing one. */
  lemma EmptyDateIgnored(videos: seq<MockVideo>, q: string)
    ensures Filtered(videos, q, Some("")) == Filtered(videos, q, None)
  {
    FilterCongruent(videos, v => MatchesQuery(v, q) && MatchesDate(v, Some("")),
                    v => MatchesQuery(v, q) && MatchesDate(v, None));
  }

  /** A repeated parameter counts as absent. */
  lemma RepeatedParamsIgnored(videos: seq<MockVideo>, qs: seq<string>, dates: seq<string>)
    ensures HomeView(videos, Many(qs), Many(dates)) == HomeView(videos, Missing, Missing)
  {
  }

  /**
   * The listed videos are an order-preserving sublist of the sample list,
   * and each of them passes both filters.
   */
  lemma FilteredIsSublist(videos: seq<MockVideo>, q: string, date: Option<string>)
    ensures IsSubsequence(Filtered(videos, q, date), videos)
    ensures forall v :: v in Filtered(videos, q, date) ==> MatchesQuery(v, q) && MatchesDate(v, date)
  {
    FilterIsSubsequence(videos, v => MatchesQuery(v, q) && MatchesDate(v, date));
  }

  // ---------------------------------------------------------------------------
  // The views

  /**
   * The body is the empty-state message exactly when nothing matched;
   * otherwise a search shows every match, and the default view shows the
   * first two then the rest, which together are every match.
   */
  lemma ViewCases(videos: seq<MockVideo>, qParam: Param, dateParam: Param)
    ensures var found := Filtered(videos, Query(qParam), DateFilter(dateParam));
            match HomeView(videos, qParam, dateParam)
            case NoResults => |found| == 0
            case SearchResults(shown) =>
              Filtering(Query(qParam), DateFilter(dateParam)) && shown == found && |found| > 0
            case Latest(latest, earlier) =>
              && !Filtering(Query(qParam), DateFilter(dateParam))
              && latest + earlier == found
              && |latest| == (if |found| < 2 then |found| else 2)
              && |latest| > 0
  {
    var found := Filtered(videos, Query(qParam), DateFilter(dateParam));
    var n := LatestCount(|found|);
    assert found[..n] + found[n..] == found;
  }

  /** Without parameters the page shows the first two samples, then the other four. */
  lemma DefaultPage()
    ensures HomeView(MockVideos, Missing, Missing) == Latest(MockVideos[..2], MockVideos[2..])
    ensures Heading(Query(Missing), DateFilter(Missing)) == "Senaste passet"
  {
    NoFilterKeepsAll(MockVideos);
  }

  /** A date filter over videos of that date followed by videos of other dates keeps the first run. */
  lemma DateFilterRun(same: seq<MockVideo>, other: seq<MockVideo>, date: string)
    requires date != ""
    requires forall i :: 0 <= i < |same| ==> same[i].date == date
    requires forall i :: 0 <= i < |other| ==> other[i].date != date
    ensures Filtered(same + other, "", Some(date)) == same
  {
    var p := v => MatchesQuery(v, "") && MatchesDate(v, Some(date));
    FilterAppend(same, other, p);
    FilterKeepsAll(same, p);
    var rest := Filter(other, p);
    if rest != [] {
      assert rest[0] in rest;
    }
  }

  /** `?date=2023-10-24` finds the first two samples. */
  lemma DateExample()
    ensures Filtered(MockVideos, "", Some("2023-10-24")) == MockVideos[..2]
  {
    assert MockVideos == MockVideos[..2] + MockVideos[2..];
    DateFilterRun(MockVideos[..2], MockVideos[2..], "2023-10-24");
  }
}
