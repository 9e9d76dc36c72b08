/**
 * `VideoCard`: the link to the video page, at most two tag links with a
 * `+N` badge for the rest, and the tag slug used in those links.
 */
module VideoCard {
  import opened Wrappers
  import opened JsStrings
  import opened Seqs

  // ---------------------------------------------------------------------------
  // Links to the video page

  const VideoPathPrefix := "/video/"

  /** `/video/${id}`. */
  function VideoHref(id: string): string {
    VideoPathPrefix + id
  }

  /** The id a video-page path names, if it is one. */
  function VideoIdOfHref(href: string): Option<string> {
    if StartsWith(href, VideoPathPrefix) then Some(href[|VideoPathPrefix|..]) else None
  }

  /** Every card links to the page of its own video, and different videos to different pages. */
  lemma VideoHrefRoundTrip(id: string, other: string)
    ensures VideoIdOfHref(VideoHref(id)) == Some(id)
    ensures VideoHref(id) == VideoHref(other) ==> id == other
  {
    assert VideoHref(id)[|VideoPathPrefix|..] == id;
    assert VideoHref(other)[|VideoPathPrefix|..] == other;
  }

  // ---------------------------------------------------------------------------
  // The tag slug: `toLowerCase().replace(/[^a-z0-9]+/g, '-')`

  /** A character the pattern `[^a-z0-9]` does not match. */
  predicate IsSlugChar(c: char) {
    'a' <= c <= 'z' || '0' <= c <= '9'
  }

  /** `s` with its leading run of characters matched by `[^a-z0-9]` removed. */
  function DropRun(s: string): (r: string)
    ensures |r| <= |s|
    ensures r == [] || IsSlugChar(r[0])
  {
    if s == [] || IsSlugChar(s[0]) then s else DropRun(s[1..])
  }

  /** `DropRun` removes exactly the leading run of characters outside `a`-`z` and `0`-`9`. */
  lemma {:induction false} DropRunSuffix(s: string)
    ensures var r := DropRun(s);
            r == s[|s| - |r|..] && forall i :: 0 <= i < |s| - |r| ==> !IsSlugChar(s[i])
    decreases |s|
  {
    if s != [] && !IsSlugChar(s[0]) {
      DropRunSuffix(s[1..]);
      var r := DropRun(s);
      assert s[1..][|s[1..]| - |r|..] == s[|s| - |r|..];
      assert forall i :: 1 <= i < |s| - |r| ==> s[i] == s[1..][i - 1];
    }
  }

  /** The global replacement of every maximal run of `[^a-z0-9]` by one `-`. */
  function ReplaceRuns(s: string): (r: string)
    ensures |r| <= |s|
    ensures s != [] ==> r != [] && (if IsSlugChar(s[0]) then r[0] == s[0] else r[0] == '-')
    decreases |s|
  {
    if s == [] then []
    else if IsSlugChar(s[0]) then [s[0]] + ReplaceRuns(s[1..])
    else "-" + ReplaceRuns(DropRun(s))
  }

  /** The replacement uses only `a`-`z`, `0`-`9` and `-`, and never two dashes in a row. */
  lemma {:induction false} ReplaceRunsForm(s: string)
    ensures SlugForm(ReplaceRuns(s))
    decreases |s|
  {
    if s != [] {
      var rest := if IsSlugChar(s[0]) then s[1..] else DropRun(s);
      ReplaceRunsForm(rest);
      var tail := ReplaceRuns(rest);
      var r := ReplaceRuns(s);
      assert r == [r[0]] + tail;
      assert forall i :: 1 <= i < |r| ==> r[i] == tail[i - 1];
      assert r[0] == '-' ==> tail == [] || tail[0] != '-';
    }
  }

  /** The collection slug of a tag. */
  function Slug(tag: string): string {
    ReplaceRuns(Lower(tag))
  }

  /** The replacement keeps every letter and digit, in order; `ReplaceRunsSplitsAtRun` shows what becomes of each run. */
  lemma {:induction false} ReplaceRunsKeepsAlphanumerics(s: string)
    ensures Filter(ReplaceRuns(s), IsSlugChar) == Filter(s, IsSlugChar)
    decreases |s|
  {
    if s != [] {
      if IsSlugChar(s[0]) {
        ReplaceRunsKeepsAlphanumerics(s[1..]);
        assert ([s[0]] + ReplaceRuns(s[1..]))[1..] == ReplaceRuns(s[1..]);
      } else {
        var rest := DropRun(s);
        ReplaceRunsKeepsAlphanumerics(rest);
        assert ("-" + ReplaceRuns(rest))[1..] == ReplaceRuns(rest);
        DroppedRunFiltered(s);
      }
    }
  }

  /** The run `DropRun` removes holds no letter or digit. */
  lemma {:induction false} DroppedRunFiltered(s: string)
    ensures Filter(s, IsSlugChar) == Filter(DropRun(s), IsSlugChar)
    decreases |s|
  {
    if s != [] && !IsSlugChar(s[0]) {
      DroppedRunFiltered(s[1..]);
    }
  }

  /** Only letters, digits and single dashes. */
  predicate SlugForm(s: string) {
    && (forall i :: 0 <= i < |s| ==> IsSlugChar(s[i]) || s[i] == '-')
    && (forall i :: 0 <= i < |s| - 1 ==> s[i] != '-' || s[i + 1] != '-')
  }

  lemma SlugFormTail(s: string)
    requires s != [] && SlugForm(s)
    ensures SlugForm(s[1..])
  {
    forall i | 0 <= i < |s| - 1 ensures s[1..][i] == s[i + 1] {
    }
  }

  /** A string already in slug form is left as it is. */
  lemma {:induction false} ReplaceRunsFixed(s: string)
    requires SlugForm(s)
    ensures ReplaceRuns(s) == s
    decreases |s|
  {
    if s != [] {
      SlugFormTail(s);
      ReplaceRunsFixed(s[1..]);
      if IsSlugChar(s[0]) {
        assert [s[0]] + s[1..] == s;
      } else {
        assert |s| > 1 ==> IsSlugChar(s[1]);
        assert DropRun(s) == DropRun(s[1..]);
        assert DropRun(s[1..]) == s[1..];
        assert "-" + s[1..] == s;
      }
    }
  }

  /** Lower-casing leaves a string in slug form as it is. */
  lemma LowerSlugForm(s: string)
    requires SlugForm(s)
    ensures Lower(s) == s
  {
    forall i | 0 <= i < |s| ensures Lower(s)[i] == s[i] {
    }
  }

  /**
   * A slug uses only `a`-`z`, `0`-`9` and single dashes, keeps the letters
   * and digits of the lower-cased tag in order, and is its own slug.
   */
  lemma SlugShape(tag: string)
    ensures var slug := Slug(tag);
            && (forall i :: 0 <= i < |slug| ==> IsSlugChar(slug[i]) || slug[i] == '-')
            && (forall i :: 0 <= i < |slug| - 1 ==> slug[i] != '-' || slug[i + 1] != '-')
            && Filter(slug, IsSlugChar) == Filter(Lower(tag), IsSlugChar)
            && Slug(slug) == slug
  {
    var slug := Slug(tag);
    ReplaceRunsKeepsAlphanumerics(Lower(tag));
    ReplaceRunsForm(Lower(tag));
    LowerSlugForm(slug);
    ReplaceRunsFixed(slug);
  }

  /** A letter outside `a`-`z` becomes a dash: "Måndagspass" links to `m-ndagspass`. */
  lemma MondaySlug()
    ensures Slug("Måndagspass") == "m-ndagspass"
  {
    LowerMonday();
    ReplaceRunsMonday();
  }

  lemma ReplaceRunsMonday()
    ensures ReplaceRuns("måndagspass") == "m-ndagspass"
  {
    assert "måndagspass" == "m" + ['å'] + "ndagspass";
    assert "m" + "-" + "ndagspass" == "m-ndagspass";
    ReplaceRunsOneGap("m", 'å', "ndagspass");
  }

  lemma LowerMonday()
    ensures Lower("Måndagspass") == "måndagspass"
  {
  }

  /** Every character is a lower-case letter or a digit. */
  predicate AllSlugChars(s: string) {
    forall i :: 0 <= i < |s| ==> IsSlugChar(s[i])
  }

  /** Two runs of letters and digits around one other character are joined by a dash. */
  lemma {:induction false} ReplaceRunsOneGap(a: string, c: char, b: string)
    requires AllSlugChars(a) && !IsSlugChar(c) && b != [] && AllSlugChars(b)
    ensures ReplaceRuns(a + [c] + b) == a + "-" + b
    decreases |a|
  {
    if a == [] {
      assert a + [c] + b == [c] + b;
      assert a + "-" + b == "-" + b;
      ReplaceRunsGapFirst(c, b);
    } else {
      assert (a + [c] + b)[0] == a[0];
      assert (a + [c] + b)[1..] == a[1..] + [c] + b;
      assert AllSlugChars(a[1..]) by {
        forall i | 0 <= i < |a[1..]| ensures IsSlugChar(a[1..][i]) {
          assert a[1..][i] == a[i + 1];
        }
      }
      ReplaceRunsOneGap(a[1..], c, b);
      assert a + "-" + b == [a[0]] + (a[1..] + "-" + b);
    }
  }

  lemma ReplaceRunsGapFirst(c: char, b: string)
    requires !IsSlugChar(c) && b != [] && AllSlugChars(b)
    ensures ReplaceRuns([c] + b) == "-" + b
  {
    assert ([c] + b)[1..] == b;
    assert DropRun([c] + b) == b;
    assert SlugForm(b);
    ReplaceRunsFixed(b);
  }

  /** No character is a lower-case letter or a digit: the whole string is one match of `[^a-z0-9]+` when non-empty. */
  predicate NoSlugChars(s: string) {
    forall i :: 0 <= i < |s| ==> !IsSlugChar(s[i])
  }

  /**
   * Each maximal run of characters outside `a-z0-9` becomes exactly one
   * dash, and the text on either side of it is replaced on its own.
   */
  lemma {:induction false} ReplaceRunsSplitsAtRun(a: string, run: string, b: string)
    requires a == [] || IsSlugChar(a[|a| - 1])
    requires run != [] && NoSlugChars(run)
    requires b == [] || IsSlugChar(b[0])
    ensures ReplaceRuns(a + run + b) == ReplaceRuns(a) + "-" + ReplaceRuns(b)
    decreases |a|
  {
    ReplaceRunsAtRun(run, b);
    PrefixBeforeDash(a, run + b, ReplaceRuns(b));
    assert a + run + b == a + (run + b);
  }

  /** Text ending in a letter or digit is replaced on its own in front of a dash. */
  lemma {:induction false} PrefixBeforeDash(a: string, rest: string, tail: string)
    requires a == [] || IsSlugChar(a[|a| - 1])
    requires ReplaceRuns(rest) == "-" + tail
    ensures ReplaceRuns(a + rest) == ReplaceRuns(a) + "-" + tail
    decreases |a|
  {
    if a == [] {
      assert a + rest == rest;
    } else if IsSlugChar(a[0]) {
      PrefixBeforeDash(a[1..], rest, tail);
      KeepHeadStep(a, rest, tail);
    } else {
      DropRunAppend(a, rest);
      assert |DropRun(a)| < |a| by {
        assert DropRun(a) == DropRun(a[1..]);
      }
      PrefixBeforeDash(DropRun(a), rest, tail);
      DropHeadStep(a, rest, tail);
    }
  }

  /** A leading run becomes one dash before the replacement of what follows it. */
  lemma ReplaceRunsAtRun(run: string, b: string)
    requires run != [] && NoSlugChars(run)
    requires b == [] || IsSlugChar(b[0])
    ensures ReplaceRuns(run + b) == "-" + ReplaceRuns(b)
  {
    DropRunOverRun(run, b);
    assert (run + b)[0] == run[0];
  }

  /** A leading letter or digit is kept in front of the replacement of the rest. */
  lemma KeepHeadStep(a: string, rest: string, tail: string)
    requires a != [] && IsSlugChar(a[0])
    requires ReplaceRuns(a[1..] + rest) == ReplaceRuns(a[1..]) + "-" + tail
    ensures ReplaceRuns(a + rest) == ReplaceRuns(a) + "-" + tail
  {
    HeadOfAppend(a, rest);
    Regroup([a[0]], ReplaceRuns(a[1..]), "-", tail);
  }

  lemma HeadOfAppend(a: string, rest: string)
    requires a != []
    ensures (a + rest)[0] == a[0] && (a + rest)[1..] == a[1..] + rest
  {
  }

  lemma Regroup(w: string, x: string, y: string, z: string)
    ensures w + (x + y + z) == (w + x) + y + z
  {
  }

  /** A leading run of `a`, which ends in a letter or digit, becomes one dash. */
  lemma DropHeadStep(a: string, rest: string, tail: string)
    requires a != [] && !IsSlugChar(a[0])
    requires DropRun(a + rest) == DropRun(a) + rest
    requires ReplaceRuns(DropRun(a) + rest) == ReplaceRuns(DropRun(a)) + "-" + tail
    ensures ReplaceRuns(a + rest) == ReplaceRuns(a) + "-" + tail
  {
    HeadOfAppend(a, rest);
    Regroup("-", ReplaceRuns(DropRun(a)), "-", tail);
  }

  /** Dropping the leading run of `a`, which ends in a letter or digit, stops inside `a`. */
  lemma {:induction false} DropRunAppend(a: string, rest: string)
    requires a != [] && IsSlugChar(a[|a| - 1])
    ensures DropRun(a + rest) == DropRun(a) + rest
    ensures DropRun(a) != [] && DropRun(a)[|DropRun(a)| - 1] == a[|a| - 1]
    decreases |a|
  {
    if !IsSlugChar(a[0]) {
      assert (a + rest)[0] == a[0];
      assert (a + rest)[1..] == a[1..] + rest;
      DropRunAppend(a[1..], rest);
    } else {
      assert (a + rest)[0] == a[0];
    }
  }

  /** A run of characters outside `a-z0-9` is dropped entirely. */
  lemma {:induction false} DropRunOverRun(run: string, b: string)
    requires NoSlugChars(run)
    requires b == [] || IsSlugChar(b[0])
    ensures DropRun(run + b) == b
    decreases |run|
  {
    if run == [] {
      assert run + b == b;
    } else {
      assert (run + b)[0] == run[0];
      assert (run + b)[1..] == run[1..] + b;
      assert NoSlugChars(run[1..]) by {
        forall i | 0 <= i < |run[1..]| ensures !IsSlugChar(run[1..][i]) {
          assert run[1..][i] == run[i + 1];
        }
      }
      DropRunOverRun(run[1..], b);
    }
  }

  /** Different tags can share a slug, and so a collection page: "No-Gi" and "no gi". */
  lemma SlugsCollide()
    ensures Slug("No-Gi") == Slug("no gi") == "no-gi"
  {
    LowerNoGi();
    assert "no-gi" == "no" + ['-'] + "gi";
    assert "no gi" == "no" + [' '] + "gi";
    assert "no" + "-" + "gi" == "no-gi";
    ReplaceRunsOneGap("no", '-', "gi");
    ReplaceRunsOneGap("no", ' ', "gi");
  }

  lemma LowerNoGi()
    ensures Lower("No-Gi") == "no-gi" && Lower("no gi") == "no gi"
  {
  }

  // ---------------------------------------------------------------------------
  // The tag row

  const CollectionsPathPrefix := "/collections/"

  /** The link of one tag. */
  function TagHref(tag: string): string {
    CollectionsPathPrefix + Slug(tag)
  }

  /** `tags.slice(0, 2)`. */
  function DisplayedTags(tags: seq<string>): seq<string> {
    if |tags| <= 2 then tags else tags[..2]
  }

  /** The `+N` badge, shown when `tags.length > 2`. */
  function Overflow(tags: seq<string>): Option<nat> {
    if |tags| > 2 then Some(|tags| - 2) else None
  }

  /**
   * The row shows the first two tags (all of them when there are fewer),
   * and the badge counts exactly the ones left out.
   */
  lemma TagRowAccountsForAll(tags: seq<string>)
    ensures var shown := DisplayedTags(tags);
            && |shown| <= 2
            && shown == tags[..|shown|]
            && (Overflow(tags).Some? <==> |shown| < |tags|)
            && |shown| + Overflow(tags).GetOr(0) == |tags|
  {
  }

  // ---------------------------------------------------------------------------
  // The card

  /** What a card renders, apart from styling. */
  datatype Card = Card(
    href: string,
    showsThumbnail: bool,
    durationBadge: Option<string>,
    tagLinks: seq<(string, string)>,
    overflow: Option<nat>)

  /** The card for one video. */
  function CardFor(id: string, thumbnailUrl: Option<string>, duration: string, tags: seq<string>): Card {
    var shown := DisplayedTags(tags);
    Card(VideoHref(id),
         thumbnailUrl.Some? && thumbnailUrl.value != "",
         if duration != "Video" then Some(duration) else None,
         seq(|shown|, i requires 0 <= i < |shown| => (shown[i], TagHref(shown[i]))),
         Overflow(tags))
  }

  /**
   * A card links to its video, labels each shown tag with the tag itself
   * and links it to the tag's collection slug, and hides the placeholder
   * duration "Video".
   */
  lemma CardContents(id: string, thumbnailUrl: Option<string>, duration: string, tags: seq<string>)
    ensures var card := CardFor(id, thumbnailUrl, duration, tags);
            && VideoIdOfHref(card.href) == Some(id)
            && |card.tagLinks| == |DisplayedTags(tags)|
            && (forall i :: 0 <= i < |card.tagLinks| ==>
                  card.tagLinks[i].0 == tags[i] && card.tagLinks[i].1 == TagHref(tags[i]))
            && (card.durationBadge.None? <==> duration == "Video")
  {
    VideoHrefRoundTrip(id, id);
  }
}
