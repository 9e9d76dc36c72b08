/**
 * The per-item mapping of the playlist fetch: a raw playlist title
 * "Title, Tag1, Tag2" becomes a display title, a list of collection labels
 * (known keywords such as week days and Gi/No-Gi) and a list of free tags,
 * and the playlist item becomes a stored video record.
 */
module TitleClassifier {
  import opened Wrappers
  import opened JsStrings
  import opened Seqs
  import opened Videos

  /** COLLECTION_TAGS: lower-cased keyword to collection label. */
  const CollectionTags: map<string, string> := map[
    "måndag" := "Måndagspass",
    "tisdag" := "Tisdagspass",
    "onsdag" := "Onsdagspass",
    "torsdag" := "Torsdagspass",
    "fredag" := "Fredagspass",
    "lördag" := "Lördagspass",
    "söndag" := "Söndagspass",
    "gi" := "Gi (Dräkt)",
    "nogi" := "No-Gi",
    "no-gi" := "No-Gi",
    "seminarium" := "Seminarier"
  ]

  /** The thumbnail URLs of a playlist item, each absent when the API omits that size. */
  datatype Thumbnails = Thumbnails(maxres: Option<string>, high: Option<string>, medium: Option<string>)

  /** The snippet fields of one playlist item that the mapping reads. */
  datatype PlaylistItem = PlaylistItem(title: string, publishedAt: string, videoId: string, thumbnails: Thumbnails)

  const WatchUrlPrefix: string := "https://youtube.com/watch?v="

  /** The raw title split on commas, each part trimmed. */
  function Segments(raw: string): (parts: seq<string>)
    ensures |parts| == |Split(raw, ',')| >= 1
  {
    var pieces := Split(raw, ',');
    seq(|pieces|, i requires 0 <= i < |pieces| => Trim(pieces[i]))
  }

  /** `finalTitle || rawTitle`: the capitalised first segment, or the raw title when it is empty. */
  function DisplayTitle(raw: string): string {
    var first := Segments(raw)[0];
    if first != "" then Capitalize(first) else raw
  }

  /** The collection label a later segment contributes: its lower-cased form looked up among the table's own keys. */
  function CollectionOf(part: string): (r: Option<string>)
    ensures r.Some? ==> r.value in CollectionTags.Values
  {
    if part != "" && Lower(part) in CollectionTags then Some(CollectionTags[Lower(part)]) else None
  }

  /** The tag a later segment contributes: any other non-empty segment, capitalised. */
  function TagOf(part: string): (r: Option<string>)
    ensures r.Some? <==> part != "" && CollectionOf(part).None?
    ensures r.Some? ==> |r.value| == |part|
    ensures r.Some? ==> r.value == [UpperChar(part[0])] + part[1..]
  {
    if part != "" && Lower(part) !in CollectionTags then Some(Capitalize(part)) else None
  }

  datatype Labels = Labels(collections: seq<string>, tags: seq<string>)

  /** The lists the classification loop has pushed to after visiting `parts`, duplicates included. */
  function SortSegments(parts: seq<string>): Labels
  {
    if parts == [] then Labels([], [])
    else Push(SortSegments(parts[..|parts| - 1]), parts[|parts| - 1])
  }

  /** One iteration of the classification loop: push the segment to the list it belongs in, if any. */
  function Push(l: Labels, part: string): Labels {
    match CollectionOf(part)
    case Some(name) => Labels(l.collections + [name], l.tags)
    case None =>
      match TagOf(part)
      case Some(tag) => Labels(l.collections, l.tags + [tag])
      case None => l
  }

  lemma SortSegmentsStep(parts: seq<string>, i: nat)
    requires 1 <= i < |parts|
    ensures SortSegments(parts[1..i + 1]) == Push(SortSegments(parts[1..i]), parts[i])
  {
    assert parts[1..i + 1][..i - 1] == parts[1..i];
  }

  datatype Classification = Classification(title: string, collections: seq<string>, tags: seq<string>)

  /** The classification of a raw title: display title and de-duplicated label lists. */
  function Classify(raw: string): Classification {
    var l := SortSegments(Segments(raw)[1..]);
    Classification(DisplayTitle(raw), Dedup(l.collections), Dedup(l.tags))
  }

  /** A URL present and non-empty, as JavaScript's `||` tests it. */
  predicate Truthy(url: Option<string>) {
    url.Some? && url.value != ""
  }

  /** `maxres?.url || high?.url || medium?.url || ""`. */
  function PickThumbnail(t: Thumbnails): (url: string)
    ensures Truthy(t.maxres) ==> url == t.maxres.value
    ensures !Truthy(t.maxres) && Truthy(t.high) ==> url == t.high.value
    ensures !Truthy(t.maxres) && !Truthy(t.high) && Truthy(t.medium) ==> url == t.medium.value
    ensures url == "" <==> !Truthy(t.maxres) && !Truthy(t.high) && !Truthy(t.medium)
  {
    if Truthy(t.maxres) then t.maxres.value
    else if Truthy(t.high) then t.high.value
    else if Truthy(t.medium) then t.medium.value
    else ""
  }

  /** The record built for one playlist item. */
  function ItemToVideo(item: PlaylistItem): (v: Video)
    ensures v.Complete()
    ensures |v.link| == |WatchUrlPrefix| + |v.id|
    ensures v.link[..|WatchUrlPrefix|] == WatchUrlPrefix && v.link[|WatchUrlPrefix|..] == v.id
  {
    var c := Classify(item.title);
    Video(item.videoId, c.title, Some(item.title), PickThumbnail(item.thumbnails), item.publishedAt,
          WatchUrlPrefix + item.videoId, Some(c.collections), Some(c.tags))
  }

  /**
   * The `items.map` callback: split and trim the title, push each later
   * segment to `collections` or `tags`, and build the record.
   */
  method ToVideo(item: PlaylistItem) returns (v: Video)
    ensures v == ItemToVideo(item)
  {
    var rawTitle := item.title;
    var parts := Segments(rawTitle);
    var finalTitle := parts[0];
    if finalTitle != "" {
      finalTitle := Capitalize(finalTitle);
    }
    var collections, tags := SortLabels(parts);
    v := Video(item.videoId, if finalTitle != "" then finalTitle else rawTitle, Some(rawTitle),
               PickThumbnail(item.thumbnails), item.publishedAt, WatchUrlPrefix + item.videoId,
               Some(Dedup(collections)), Some(Dedup(tags)));
    ToVideoRecord(item, finalTitle, collections, tags);
  }

  /**
   * The classification loop over the segments after the first: skip empty
   * ones, push a table hit's label to `collections`, push any other segment,
   * capitalised, to `tags`.
   */
  method SortLabels(parts: seq<string>) returns (collections: seq<string>, tags: seq<string>)
    requires |parts| >= 1
    ensures Labels(collections, tags) == SortSegments(parts[1..])
  {
    collections := [];
    tags := [];
    for i := 1 to |parts|
      invariant Labels(collections, tags) == SortSegments(parts[1..i])
    {
      SortSegmentsStep(parts, i);
      PushCases(Labels(collections, tags), parts[i]);
      var part := parts[i];
      if part == "" {
        continue;
      }
      var lowerPart := Lower(part);
      if lowerPart in CollectionTags {
        collections := collections + [CollectionTags[lowerPart]];
      } else {
        tags := tags + [Capitalize(part)];
      }
    }
    assert parts[1..|parts|] == parts[1..];
  }

  /** The loop body's branches are exactly the cases of `Push`. */
  lemma PushCases(l: Labels, part: string)
    ensures Push(l, part) == if part == "" then l
                             else if Lower(part) in CollectionTags
                             then Labels(l.collections + [CollectionTags[Lower(part)]], l.tags)
                             else Labels(l.collections, l.tags + [Capitalize(part)])
  {
  }

  /** The record `ToVideo` assembles from the loop's lists is the one `ItemToVideo` specifies. */
  lemma ToVideoRecord(item: PlaylistItem, finalTitle: string, collections: seq<string>, tags: seq<string>)
    requires var parts := Segments(item.title);
             finalTitle == (if parts[0] != "" then Capitalize(parts[0]) else parts[0])
    requires Labels(collections, tags) == SortSegments(Segments(item.title)[1..])
    ensures Video(item.videoId, if finalTitle != "" then finalTitle else item.title, Some(item.title),
                  PickThumbnail(item.thumbnails), item.publishedAt, WatchUrlPrefix + item.videoId,
                  Some(Dedup(collections)), Some(Dedup(tags)))
            == ItemToVideo(item)
  {
  }

  // ---------------------------------------------------------------------------
  // The display title

  /**
   * The title is the text before the first comma, trimmed, with its first
   * character upper-cased and the rest unchanged; when that text trims to
   * nothing the title is the raw title, untouched.
   */
  lemma TitleRule(raw: string)
    ensures var cut := |Split(raw, ',')[0]|;
            cut <= |raw| && ',' !in raw[..cut] && (cut == |raw| || raw[cut] == ',')
    ensures var cut := |Split(raw, ',')[0]|;
            var first := Trim(raw[..cut]);
            && (first == "" ==> Classify(raw).title == raw)
            && (first != "" ==> |Classify(raw).title| == |first|
                                && Classify(raw).title[0] == UpperChar(first[0])
                                && Classify(raw).title[1..] == first[1..])
  {
    SplitFirstPiece(raw, ',');
  }

  /** The title is empty only for an empty raw title. */
  lemma TitleEmptyIff(raw: string)
    ensures Classify(raw).title == "" <==> raw == ""
  {
    if raw == "" {
      assert Split(raw, ',') == [""];
    }
  }

  // ---------------------------------------------------------------------------
  // Collections and tags

  /** Number of non-empty segments. */
  function NonEmptyCount(parts: seq<string>): nat {
    if parts == [] then 0
    else NonEmptyCount(parts[..|parts| - 1]) + (if parts[|parts| - 1] != "" then 1 else 0)
  }

  /**
   * Every non-empty segment lands in exactly one of the two lists: the
   * lists together hold one entry per non-empty segment.
   */
  lemma {:induction false} SortSegmentsCount(parts: seq<string>)
    ensures |SortSegments(parts).collections| + |SortSegments(parts).tags| == NonEmptyCount(parts)
  {
    if parts != [] {
      SortSegmentsCount(parts[..|parts| - 1]);
    }
  }

  /** Some segment of `parts` contributes collection label `x`. */
  ghost predicate CollectionFrom(parts: seq<string>, x: string) {
    exists j :: 0 <= j < |parts| && CollectionOf(parts[j]) == Some(x)
  }

  /** Some segment of `parts` contributes tag `x`. */
  ghost predicate TagFrom(parts: seq<string>, x: string) {
    exists j :: 0 <= j < |parts| && TagOf(parts[j]) == Some(x)
  }

  /**
   * Per segment: a label is in `collections` exactly when some non-empty
   * segment's lower-case form is a table key mapping to it, and in `tags`
   * exactly when some non-empty segment that is not a key capitalises to it.
   */
  lemma {:induction false} SortSegmentsMembers(parts: seq<string>)
    ensures forall x :: x in SortSegments(parts).collections <==> CollectionFrom(parts, x)
    ensures forall x :: x in SortSegments(parts).tags <==> TagFrom(parts, x)
  {
    if parts != [] {
      var init := parts[..|parts| - 1];
      var last := parts[|parts| - 1];
      SortSegmentsMembers(init);
      PushMembers(SortSegments(init), last);
      FromSnoc(init, last);
      assert init + [last] == parts;
    }
  }

  /** Pushing one segment adds exactly that segment's label to its list. */
  lemma PushMembers(l: Labels, part: string)
    ensures forall x :: x in Push(l, part).collections <==> x in l.collections || CollectionOf(part) == Some(x)
    ensures forall x :: x in Push(l, part).tags <==> x in l.tags || TagOf(part) == Some(x)
  {
  }

  /** A label comes from `init + [last]` when it comes from `init` or from `last`. */
  lemma FromSnoc(init: seq<string>, last: string)
    ensures forall x :: CollectionFrom(init + [last], x) <==> CollectionFrom(init, x) || CollectionOf(last) == Some(x)
    ensures forall x :: TagFrom(init + [last], x) <==> TagFrom(init, x) || TagOf(last) == Some(x)
  {
    var parts := init + [last];
    forall x | CollectionFrom(parts, x) ensures CollectionFrom(init, x) || CollectionOf(last) == Some(x) {
      var j :| 0 <= j < |parts| && CollectionOf(parts[j]) == Some(x);
      if j < |init| {
        assert parts[j] == init[j];
      }
    }
    forall x | CollectionFrom(init, x) ensures CollectionFrom(parts, x) {
      var j :| 0 <= j < |init| && CollectionOf(init[j]) == Some(x);
      assert parts[j] == init[j];
    }
    assert parts[|init|] == last;
    forall x | TagFrom(parts, x) ensures TagFrom(init, x) || TagOf(last) == Some(x) {
      var j :| 0 <= j < |parts| && TagOf(parts[j]) == Some(x);
      if j < |init| {
        assert parts[j] == init[j];
      }
    }
    forall x | TagFrom(init, x) ensures TagFrom(parts, x) {
      var j :| 0 <= j < |init| && TagOf(init[j]) == Some(x);
      assert parts[j] == init[j];
    }
  }

  /** The per-segment rule, after de-duplication, for a whole raw title. */
  lemma ClassifyMembers(raw: string)
    ensures var segs := Segments(raw);
            forall x :: x in Classify(raw).collections <==>
              exists j :: 1 <= j < |segs| && CollectionOf(segs[j]) == Some(x)
    ensures var segs := Segments(raw);
            forall x :: x in Classify(raw).tags <==>
              exists j :: 1 <= j < |segs| && TagOf(segs[j]) == Some(x)
  {
    SortSegmentsMembers(Segments(raw)[1..]);
    ClassifyCollectionMembers(raw);
    ClassifyTagMembers(raw);
  }

  lemma ClassifyCollectionMembers(raw: string)
    requires var segs := Segments(raw);
             forall x :: x in SortSegments(segs[1..]).collections <==> CollectionFrom(segs[1..], x)
    ensures var segs := Segments(raw);
            forall x :: x in Classify(raw).collections <==>
              exists j :: 1 <= j < |segs| && CollectionOf(segs[j]) == Some(x)
  {
    var segs := Segments(raw);
    forall x | CollectionFrom(segs[1..], x)
      ensures exists j :: 1 <= j < |segs| && CollectionOf(segs[j]) == Some(x)
    {
      var j :| 0 <= j < |segs[1..]| && CollectionOf(segs[1..][j]) == Some(x);
      assert segs[1..][j] == segs[j + 1];
    }
    forall x, j | 1 <= j < |segs| && CollectionOf(segs[j]) == Some(x) ensures CollectionFrom(segs[1..], x) {
      assert segs[1..][j - 1] == segs[j];
    }
  }

  lemma ClassifyTagMembers(raw: string)
    requires var segs := Segments(raw);
             forall x :: x in SortSegments(segs[1..]).tags <==> TagFrom(segs[1..], x)
    ensures var segs := Segments(raw);
            forall x :: x in Classify(raw).tags <==>
              exists j :: 1 <= j < |segs| && TagOf(segs[j]) == Some(x)
  {
    var segs := Segments(raw);
    forall x | TagFrom(segs[1..], x)
      ensures exists j :: 1 <= j < |segs| && TagOf(segs[j]) == Some(x)
    {
      var j :| 0 <= j < |segs[1..]| && TagOf(segs[1..][j]) == Some(x);
      assert segs[1..][j] == segs[j + 1];
    }
    forall x, j | 1 <= j < |segs| && TagOf(segs[j]) == Some(x) ensures TagFrom(segs[1..], x) {
      assert segs[1..][j - 1] == segs[j];
    }
  }

  /** Both lists are free of repeats and keep the order in which labels were first pushed. */
  lemma ClassifyDistinctInFirstSeenOrder(raw: string)
    ensures var l := SortSegments(Segments(raw)[1..]);
            var c := Classify(raw);
            && NoDuplicates(c.collections) && NoDuplicates(c.tags)
            && IsSubsequence(c.collections, l.collections) && IsSubsequence(c.tags, l.tags)
            && (forall i, j :: 0 <= i < j < |c.collections| ==>
                  FirstIndex(l.collections, c.collections[i]) < FirstIndex(l.collections, c.collections[j]))
            && (forall i, j :: 0 <= i < j < |c.tags| ==>
                  FirstIndex(l.tags, c.tags[i]) < FirstIndex(l.tags, c.tags[j]))
  {
    var l := SortSegments(Segments(raw)[1..]);
    DedupIsSubsequence(l.collections);
    DedupIsSubsequence(l.tags);
    DedupFirstSeenOrder(l.collections);
    DedupFirstSeenOrder(l.tags);
  }

  /** Every collection label is one of the table's labels. */
  lemma CollectionsInTable(raw: string)
    ensures forall x :: x in Classify(raw).collections ==> x in CollectionTags.Values
  {
    ClassifyMembers(raw);
  }

  /** A title without a comma has no collections and no tags. */
  lemma NoCommaNoLabels(raw: string)
    requires ',' !in raw
    ensures Classify(raw).collections == [] && Classify(raw).tags == []
  {
    SplitPiece(raw, ',');
  }

  // ---------------------------------------------------------------------------
  // Worked examples

  lemma TrimAfterSpace(s: string, t: string)
    requires t != [] && !IsJsWhitespace(t[0]) && !IsJsWhitespace(t[|t| - 1])
    requires s == [' '] + t
    ensures Trim(s) == t
  {
    TrimLeading(' ', t);
    TrimUnchanged(t);
  }

  lemma SegmentsOfThree(raw: string, a: string, b: string, c: string, ta: string, tb: string, tc: string)
    requires Split(raw, ',') == [a, b, c]
    requires Trim(a) == ta && Trim(b) == tb && Trim(c) == tc
    ensures Segments(raw) == [ta, tb, tc]
  {
    var s := Segments(raw);
    assert s[0] == ta && s[1] == tb && s[2] == tc;
  }

  lemma ClassifyOfThree(raw: string, a: string, b: string, c: string)
    requires Segments(raw) == [a, b, c]
    ensures Classify(raw) == Classification(if a != "" then Capitalize(a) else raw,
                                            Dedup(SortSegments([b, c]).collections),
                                            Dedup(SortSegments([b, c]).tags))
  {
    assert Segments(raw)[1..] == [b, c];
  }

  lemma SortOfTwo(a: string, b: string)
    ensures SortSegments([a, b]).collections == SortSegments([a]).collections + SortSegments([b]).collections
    ensures SortSegments([a, b]).tags == SortSegments([a]).tags + SortSegments([b]).tags
  {
    assert [a, b][..1] == [a];
    assert [a][..0] == [];
    assert [b][..0] == [];
  }

  lemma SplitExample()
    ensures Split("Armbar från Guard, Måndag, Armbar", ',') == ["Armbar från Guard", " Måndag", " Armbar"]
  {
    var pieces := ["Armbar från Guard", " Måndag", " Armbar"];
    assert Join(pieces, ',') == "Armbar från Guard, Måndag, Armbar";
    SplitJoin(pieces, ',');
  }

  lemma TrimTitleExample()
    ensures Trim("Armbar från Guard") == "Armbar från Guard"
  {
    TrimUnchanged("Armbar från Guard");
  }

  lemma TrimMondayExample()
    ensures Trim(" Måndag") == "Måndag"
  {
    TrimAfterSpace(" Måndag", "Måndag");
  }

  lemma TrimArmbarExample()
    ensures Trim(" Armbar") == "Armbar"
  {
    TrimAfterSpace(" Armbar", "Armbar");
  }

  lemma SortExample()
    ensures SortSegments(["Måndag", "Armbar"]) == Labels(["Måndagspass"], ["Armbar"])
  {
    SortOfTwo("Måndag", "Armbar");
    LowerMondayWord();
    CollectionSegment("Måndag", "måndag");
    LowerArmbar();
    TagSegment("Armbar");
    assert Capitalize("Armbar") == "Armbar";
  }

  /** A lone segment whose lower-case form is a table key becomes that key's collection. */
  lemma CollectionSegment(part: string, key: string)
    requires part != "" && Lower(part) == key && key in CollectionTags
    ensures SortSegments([part]) == Labels([CollectionTags[key]], [])
  {
    assert [part][..0] == [];
  }

  /** A lone non-empty segment that is not a table key becomes a capitalised tag. */
  lemma TagSegment(part: string)
    requires part != "" && Lower(part) !in CollectionTags
    ensures SortSegments([part]) == Labels([], [Capitalize(part)])
  {
    assert [part][..0] == [];
  }

  lemma LowerMondayWord()
    ensures Lower("Måndag") == "måndag"
  {
  }

  lemma LowerArmbar()
    ensures Lower("Armbar") == "armbar" && "armbar" !in CollectionTags
  {
  }

  lemma LowerMondayLabel()
    ensures Lower("Måndagspass") == "måndagspass" && "måndagspass" !in CollectionTags
  {
  }

  lemma ArmbarSegments()
    ensures Segments("Armbar från Guard, Måndag, Armbar") == ["Armbar från Guard", "Måndag", "Armbar"]
  {
    SplitExample();
    TrimTitleExample();
    TrimMondayExample();
    TrimArmbarExample();
    SegmentsOfThree("Armbar från Guard, Måndag, Armbar", "Armbar från Guard", " Måndag", " Armbar",
                    "Armbar från Guard", "Måndag", "Armbar");
  }

  lemma ArmbarLabels()
    ensures Capitalize("Armbar från Guard") == "Armbar från Guard"
    ensures Dedup(SortSegments(["Måndag", "Armbar"]).collections) == ["Måndagspass"]
    ensures Dedup(SortSegments(["Måndag", "Armbar"]).tags) == ["Armbar"]
  {
    SortExample();
    DedupOfDistinct(["Måndagspass"]);
    DedupOfDistinct(["Armbar"]);
  }

  /**
   * "Armbar från Guard, Måndag, Armbar": title "Armbar från Guard",
   * collections ["Måndagspass"], tags ["Armbar"].
   */
  lemma ArmbarExample()
    ensures Classify("Armbar från Guard, Måndag, Armbar")
         == Classification("Armbar från Guard", ["Måndagspass"], ["Armbar"])
  {
    ArmbarSegments();
    ClassifyOfThree("Armbar från Guard, Måndag, Armbar", "Armbar från Guard", "Måndag", "Armbar");
    ArmbarLabels();
  }

  lemma OverlapSegments()
    ensures Segments("X, Måndag, Måndagspass") == ["X", "Måndag", "Måndagspass"]
  {
    OverlapSplit();
    TrimUnchanged("X");
    TrimMondayExample();
    TrimMondayLabelExample();
    SegmentsOfThree("X, Måndag, Måndagspass", "X", " Måndag", " Måndagspass", "X", "Måndag", "Måndagspass");
  }

  lemma OverlapSplit()
    ensures Split("X, Måndag, Måndagspass", ',') == ["X", " Måndag", " Måndagspass"]
  {
    var pieces := ["X", " Måndag", " Måndagspass"];
    assert Join(pieces, ',') == "X, Måndag, Måndagspass";
    SplitJoin(pieces, ',');
  }

  lemma TrimMondayLabelExample()
    ensures Trim(" Måndagspass") == "Måndagspass"
  {
    TrimAfterSpace(" Måndagspass", "Måndagspass");
  }

  lemma OverlapSort()
    ensures SortSegments(["Måndag", "Måndagspass"]) == Labels(["Måndagspass"], ["Måndagspass"])
  {
    SortOfTwo("Måndag", "Måndagspass");
    LowerMondayWord();
    CollectionSegment("Måndag", "måndag");
    LowerMondayLabel();
    TagSegment("Måndagspass");
    assert Capitalize("Måndagspass") == "Måndagspass";
  }

  lemma OverlapLabels()
    ensures Dedup(SortSegments(["Måndag", "Måndagspass"]).collections) == ["Måndagspass"]
    ensures Dedup(SortSegments(["Måndag", "Måndagspass"]).tags) == ["Måndagspass"]
  {
    OverlapSort();
    DedupOfDistinct(["Måndagspass"]);
  }

  /**
   * The two lists are not disjoint: in "X, Måndag, Måndagspass" the day
   * keyword yields the collection "Måndagspass", while the segment
   * "Måndagspass" is not a table key and becomes the tag "Måndagspass".
   */
  lemma CollectionsAndTagsMayOverlap()
    ensures var c := Classify("X, Måndag, Måndagspass");
            "Måndagspass" in c.collections && "Måndagspass" in c.tags
  {
    OverlapSegments();
    ClassifyOfThree("X, Måndag, Måndagspass", "X", "Måndag", "Måndagspass");
    OverlapLabels();
  }

  lemma SegmentsOfOne(raw: string, a: string, ta: string)
    requires Split(raw, ',') == [a] && Trim(a) == ta
    ensures Segments(raw) == [ta]
  {
  }

  lemma PrivateVideoSplit()
    ensures Split("Private video", ',') == ["Private video"]
  {
    SplitPiece("Private video", ',');
  }

  lemma PrivateVideoTrim()
    ensures Trim("Private video") == "Private video"
  {
    TrimUnchanged("Private video");
  }

  lemma PrivateVideoSegments()
    ensures Segments("Private video") == ["Private video"]
  {
    PrivateVideoSplit();
    PrivateVideoTrim();
    SegmentsOfOne("Private video", "Private video", "Private video");
  }

  /** A title that is one non-empty segment keeps that segment, capitalised, and gets no labels. */
  lemma ClassifyOfOne(raw: string, a: string)
    requires Segments(raw) == [a] && a != ""
    ensures Classify(raw) == Classification(Capitalize(a), [], [])
  {
    assert Segments(raw)[1..] == [];
  }

  lemma CapitalizePlaceholder()
    ensures Capitalize("Private video") == "Private video"
  {
  }

  /** The placeholder title of a private video classifies to itself, with no labels. */
  lemma PrivateVideoExample()
    ensures Classify("Private video") == Classification("Private video", [], [])
  {
    PrivateVideoSegments();
    ClassifyOfOne("Private video", "Private video");
    CapitalizePlaceholder();
  }

  lemma LowerPrivateVideoSplit()
    ensures Split("private video", ',') == ["private video"]
  {
    SplitPiece("private video", ',');
  }

  lemma LowerPrivateVideoTrim()
    ensures Trim("private video") == "private video"
  {
    TrimUnchanged("private video");
  }

  lemma LowerPrivateVideoSegments()
    ensures Segments("private video") == ["private video"]
  {
    LowerPrivateVideoSplit();
    LowerPrivateVideoTrim();
    SegmentsOfOne("private video", "private video", "private video");
  }

  lemma CapitalizePrivateVideo()
    ensures Capitalize("private video") == "Private video"
  {
  }

  /**
   * Capitalisation makes an uploaded title "private video" display as the
   * placeholder "Private video".
   */
  lemma LowerCasePrivateTitle()
    ensures Classify("private video").title == "Private video"
  {
    LowerPrivateVideoSegments();
    CapitalizePrivateVideo();
  }

  /**
   * The record keeps the raw title as `originalTitle`, the playlist item's
   * video id and publication time, and the preferred thumbnail.
   */
  lemma ItemRecordFields(item: PlaylistItem)
    ensures var v := ItemToVideo(item);
            && v.originalTitle == Some(item.title)
            && v.id == item.videoId
            && v.publishedAt == item.publishedAt
            && v.thumbnail == PickThumbnail(item.thumbnails)
            && v.title == Classify(item.title).title
            && v.collections == Some(Classify(item.title).collections)
            && v.tags == Some(Classify(item.title).tags)
  {
  }

  // ---------------------------------------------------------------------------
  // The table lookup as written

  /**
   * What `COLLECTION_TAGS[key]` yields as written: the table is an object
   * literal, so besides its own keys a read also finds the members every
   * object inherits from `Object.prototype`.
   */
  datatype PropertyRead = OwnLabel(value: string) | InheritedMember(name: string)

  /** The inherited members of `Object.prototype` whose names are already lower-case. */
  const InheritedLowerCaseNames: set<string> := {"constructor", "__proto__"}

  function LookupAsWritten(key: string): Option<PropertyRead> {
    if key in CollectionTags then Some(OwnLabel(CollectionTags[key]))
    else if key in InheritedLowerCaseNames then Some(InheritedMember(key))
    else None
  }

  /** What line 132 pushes to `collections` for a segment, as written. */
  function CollectionPushAsWritten(part: string): Option<PropertyRead> {
    if part == "" then None else LookupAsWritten(Lower(part))
  }

  /**
   * As written, the segment "Constructor" passes the truthiness test and
   * pushes the inherited `Object` constructor, which is not a label of the
   * table; the own-key lookup makes it the tag "Constructor" instead.
   */
  lemma ConstructorSegmentAsWritten()
    ensures CollectionPushAsWritten("Constructor") == Some(InheritedMember("constructor"))
    ensures "constructor" !in CollectionTags
    ensures CollectionOf("Constructor") == None && TagOf("Constructor") == Some("Constructor")
  {
    assert Lower("Constructor") == "constructor";
    assert Capitalize("Constructor") == "Constructor";
  }

  /** Where the table does hold the key, both lookups agree. */
  lemma LookupAgreesOnOwnKeys(part: string)
    requires part != "" && Lower(part) in CollectionTags
    ensures CollectionPushAsWritten(part) == Some(OwnLabel(CollectionOf(part).value))
  {
  }
}
