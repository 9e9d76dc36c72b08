/**
 * The Firestore side of `youtube.ts`: the `videos` collection keyed by video
 * id, the `system/youtube_sync` document holding `lastSynced`, and the
 * auto-sync policy that reads the one and refreshes the other.
 */
module VideoStore {
  import opened Wrappers
  import opened Videos
  import opened TitleClassifier
  import opened PlaylistFetch

  // ---------------------------------------------------------------------------
  // String order, as Firestore compares strings (by code point)

  /** `a` sorts strictly before `b`: a proper prefix, or smaller at the first difference. */
  predicate StrLt(a: string, b: string) {
    if |b| == 0 then false
    else if |a| == 0 then true
    else if a[0] != b[0] then a[0] < b[0]
    else StrLt(a[1..], b[1..])
  }

  lemma {:induction false} StrLtIrreflexive(a: string)
    ensures !StrLt(a, a)
  {
    if |a| > 0 {
      StrLtIrreflexive(a[1..]);
    }
  }

  lemma {:induction false} StrLtAsymmetric(a: string, b: string)
    ensures StrLt(a, b) ==> !StrLt(b, a)
  {
    if |a| > 0 && |b| > 0 && a[0] == b[0] {
      StrLtAsymmetric(a[1..], b[1..]);
    }
  }

  lemma {:induction false} StrLtTransitive(a: string, b: string, c: string)
    ensures StrLt(a, b) && StrLt(b, c) ==> StrLt(a, c)
  {
    if |a| > 0 && |b| > 0 && |c| > 0 && a[0] == b[0] && b[0] == c[0] {
      StrLtTransitive(a[1..], b[1..], c[1..]);
    }
  }

  lemma {:induction false} StrLtTotal(a: string, b: string)
    ensures a == b || StrLt(a, b) || StrLt(b, a)
  {
    if |a| > 0 && |b| > 0 && a[0] == b[0] {
      StrLtTotal(a[1..], b[1..]);
      if a[1..] == b[1..] {
        assert a == [a[0]] + a[1..] && b == [b[0]] + b[1..];
      }
    }
  }

  // ---------------------------------------------------------------------------
  // The `orderBy('publishedAt', 'desc')` listing

  /**
   * Document `a` is listed before document `b`: a later `publishedAt`, or
   * the same one and a greater document key (Firestore breaks ties on the
   * key, in the direction of the last ordering).
   */
  predicate Precedes(docs: map<string, Video>, a: string, b: string)
    requires a in docs && b in docs
  {
    StrLt(docs[b].publishedAt, docs[a].publishedAt)
    || (docs[a].publishedAt == docs[b].publishedAt && StrLt(b, a))
  }

  lemma PrecedesStrict(docs: map<string, Video>, a: string, b: string)
    requires a in docs && b in docs
    ensures !(Precedes(docs, a, b) && Precedes(docs, b, a))
  {
    StrLtAsymmetric(docs[a].publishedAt, docs[b].publishedAt);
    StrLtAsymmetric(a, b);
    StrLtIrreflexive(docs[a].publishedAt);
  }

  lemma PrecedesTransitive(docs: map<string, Video>, a: string, b: string, c: string)
    requires a in docs && b in docs && c in docs
    requires Precedes(docs, a, b) && Precedes(docs, b, c)
    ensures Precedes(docs, a, c)
  {
    StrLtTransitive(docs[c].publishedAt, docs[b].publishedAt, docs[a].publishedAt);
    StrLtTransitive(c, b, a);
  }

  lemma PrecedesTotal(docs: map<string, Video>, a: string, b: string)
    requires a in docs && b in docs && a != b
    ensures Precedes(docs, a, b) || Precedes(docs, b, a)
  {
    StrLtTotal(docs[a].publishedAt, docs[b].publishedAt);
    StrLtTotal(a, b);
  }

  /** `k` is the document the query returns first. */
  predicate IsFirst(docs: map<string, Video>, k: string) {
    k in docs && forall k' :: k' in docs && k' != k ==> Precedes(docs, k, k')
  }

  lemma {:induction false} FirstExists(docs: map<string, Video>)
    requires |docs.Keys| > 0
    ensures exists k :: IsFirst(docs, k)
    decreases |docs.Keys|
  {
    var k0 :| k0 in docs;
    var rest := docs - {k0};
    if |rest.Keys| == 0 {
      assert rest.Keys == docs.Keys - {k0};
      assert IsFirst(docs, k0);
    } else {
      FirstExists(rest);
      var k1 :| IsFirst(rest, k1);
      PrecedesTotal(docs, k0, k1);
      if Precedes(docs, k0, k1) {
        forall k' | k' in docs && k' != k0 ensures Precedes(docs, k0, k')
        {
          if k' != k1 {
            assert Precedes(rest, k1, k');
            PrecedesTransitive(docs, k0, k1, k');
          }
        }
        assert IsFirst(docs, k0);
      } else {
        forall k' | k' in docs && k' != k1 ensures Precedes(docs, k1, k')
        {
          if k' != k0 {
            assert Precedes(rest, k1, k');
          }
        }
        assert IsFirst(docs, k1);
      }
    }
  }

  lemma FirstUnique(docs: map<string, Video>)
    ensures forall a, b :: IsFirst(docs, a) && IsFirst(docs, b) ==> a == b
  {
    forall a, b | IsFirst(docs, a) && IsFirst(docs, b) ensures a == b {
      if a != b {
        PrecedesStrict(docs, a, b);
      }
    }
  }

  /** No document listed after the first one has a later `publishedAt`. */
  lemma FirstNotAfter(docs: map<string, Video>, k: string, tail: seq<Video>)
    requires IsFirst(docs, k)
    requires forall v :: v in tail ==> exists k' :: k' in docs - {k} && (docs - {k})[k'] == v
    ensures forall v :: v in tail ==> !StrLt(docs[k].publishedAt, v.publishedAt)
  {
    forall v | v in tail ensures !StrLt(docs[k].publishedAt, v.publishedAt) {
      var k' :| k' in docs - {k} && (docs - {k})[k'] == v;
      assert Precedes(docs, k, k');
      StrLtAsymmetric(v.publishedAt, docs[k].publishedAt);
      StrLtIrreflexive(v.publishedAt);
    }
  }

  /** The first document followed by a listing of the others is a listing. */
  lemma ListingStep(docs: map<string, Video>, k: string, tail: seq<Video>)
    requires IsFirst(docs, k)
    requires |tail| == |(docs - {k}).Keys|
    requires forall k' :: k' in docs - {k} ==> (docs - {k})[k'] in tail
    requires forall v :: v in tail ==> exists k' :: k' in docs - {k} && (docs - {k})[k'] == v
    requires forall i, j :: 0 <= i < j < |tail| ==> !StrLt(tail[i].publishedAt, tail[j].publishedAt)
    ensures |[docs[k]] + tail| == |docs.Keys|
    ensures forall k' :: k' in docs ==> docs[k'] in [docs[k]] + tail
    ensures forall v :: v in [docs[k]] + tail ==> exists k' :: k' in docs && docs[k'] == v
    ensures forall i, j :: 0 <= i < j < |[docs[k]] + tail| ==>
              !StrLt(([docs[k]] + tail)[i].publishedAt, ([docs[k]] + tail)[j].publishedAt)
  {
    assert (docs - {k}).Keys == docs.Keys - {k};
    ListingStepCovers(docs, k, tail);
    ListingStepStored(docs, k, tail);
    FirstNotAfter(docs, k, tail);
    ListingStepOrder(docs[k], tail);
  }

  lemma ListingStepCovers(docs: map<string, Video>, k: string, tail: seq<Video>)
    requires k in docs
    requires forall k' :: k' in docs - {k} ==> (docs - {k})[k'] in tail
    ensures forall k' :: k' in docs ==> docs[k'] in [docs[k]] + tail
  {
    forall k' | k' in docs ensures docs[k'] in [docs[k]] + tail {
      if k' != k {
        assert (docs - {k})[k'] in tail;
      }
    }
  }

  lemma ListingStepStored(docs: map<string, Video>, k: string, tail: seq<Video>)
    requires k in docs
    requires forall v :: v in tail ==> exists k' :: k' in docs - {k} && (docs - {k})[k'] == v
    ensures forall v :: v in [docs[k]] + tail ==> exists k' :: k' in docs && docs[k'] == v
  {
    forall v | v in [docs[k]] + tail ensures exists k' :: k' in docs && docs[k'] == v {
      if v != docs[k] {
        assert v in tail;
        var k' :| k' in docs - {k} && (docs - {k})[k'] == v;
        assert docs[k'] == v;
      }
    }
  }

  lemma ListingStepOrder(first: Video, tail: seq<Video>)
    requires forall v :: v in tail ==> !StrLt(first.publishedAt, v.publishedAt)
    requires forall i, j :: 0 <= i < j < |tail| ==> !StrLt(tail[i].publishedAt, tail[j].publishedAt)
    ensures forall i, j :: 0 <= i < j < |[first] + tail| ==>
              !StrLt(([first] + tail)[i].publishedAt, ([first] + tail)[j].publishedAt)
  {
    var vs := [first] + tail;
    forall i, j | 0 <= i < j < |vs| ensures !StrLt(vs[i].publishedAt, vs[j].publishedAt) {
      if i == 0 {
        assert vs[j] == tail[j - 1];
        assert vs[j] in tail;
      } else {
        assert vs[i] == tail[i - 1] && vs[j] == tail[j - 1];
      }
    }
  }

  /**
   * The documents of the collection in query order: `publishedAt`
   * descending.
   */
  function Listing(docs: map<string, Video>): (vs: seq<Video>)
    ensures |vs| == |docs.Keys|
    ensures forall k :: k in docs ==> docs[k] in vs
    ensures forall v :: v in vs ==> exists k :: k in docs && docs[k] == v
    ensures forall i, j :: 0 <= i < j < |vs| ==> !StrLt(vs[i].publishedAt, vs[j].publishedAt)
    decreases |docs.Keys|
  {
    if |docs.Keys| == 0 then []
    else
      FirstExists(docs);
      FirstUnique(docs);
      var k :| IsFirst(docs, k);
      var tail := Listing(docs - {k});
      ListingStep(docs, k, tail);
      [docs[k]] + tail
  }

  /** The stored record with this id, as `videos.find(v => v.id === id)` finds it. */
  function FindById(vs: seq<Video>, id: string): (r: Option<Video>)
    ensures r.Some? ==> r.value in vs && r.value.id == id
    ensures r.None? <==> forall v :: v in vs ==> v.id != id
    ensures r.Some? ==> exists k :: 0 <= k < |vs| && vs[k] == r.value && forall j :: 0 <= j < k ==> vs[j].id != id
  {
    if |vs| == 0 then None
    else if vs[0].id == id then Some(vs[0])
    else FindById(vs[1..], id)
  }

  // ---------------------------------------------------------------------------
  // `batch.set(docRef, video, { merge: true })`

  /** A merge write keeps an optional field the written record leaves out. */
  function MergeOpt<T>(stored: Option<T>, written: Option<T>): Option<T> {
    if written.Some? then written else stored
  }

  /** The document after merging `written` into `stored`. */
  function Merge(stored: Video, written: Video): (r: Video)
    ensures r.id == written.id && r.title == written.title && r.thumbnail == written.thumbnail
    ensures r.publishedAt == written.publishedAt && r.link == written.link
    ensures written.originalTitle.Some? ==> r.originalTitle == written.originalTitle
    ensures written.originalTitle.None? ==> r.originalTitle == stored.originalTitle
    ensures written.collections.Some? ==> r.collections == written.collections
    ensures written.collections.None? ==> r.collections == stored.collections
    ensures written.tags.Some? ==> r.tags == written.tags
    ensures written.tags.None? ==> r.tags == stored.tags
  {
    Video(written.id, written.title, MergeOpt(stored.originalTitle, written.originalTitle),
          written.thumbnail, written.publishedAt, written.link,
          MergeOpt(stored.collections, written.collections), MergeOpt(stored.tags, written.tags))
  }

  /** One merge write of `v` under its id. */
  function MergeInto(docs: map<string, Video>, v: Video): map<string, Video> {
    docs[v.id := if v.id in docs then Merge(docs[v.id], v) else v]
  }

  /** The batch of merge writes, in order. */
  function UpsertAll(docs: map<string, Video>, vs: seq<Video>): map<string, Video> {
    if |vs| == 0 then docs
    else MergeInto(UpsertAll(docs, vs[..|vs| - 1]), vs[|vs| - 1])
  }

  /** Every document is stored under its own id. */
  predicate KeyedById(docs: map<string, Video>) {
    forall k :: k in docs ==> docs[k].id == k
  }

  /**
   * The batch leaves exactly the old keys and the written ids, keeps every
   * document stored under its id, and does not touch documents it does not
   * write.
   */
  lemma UpsertAllKeys(docs: map<string, Video>, vs: seq<Video>)
    ensures UpsertAll(docs, vs).Keys == docs.Keys + set v | v in vs :: v.id
    ensures KeyedById(docs) ==> KeyedById(UpsertAll(docs, vs))
    ensures forall k :: k in docs && (forall v :: v in vs ==> v.id != k) ==> UpsertAll(docs, vs)[k] == docs[k]
  {
    UpsertAllKeySet(docs, vs);
    if KeyedById(docs) {
      UpsertAllKeyed(docs, vs);
    }
    UpsertAllUntouched(docs, vs);
  }

  lemma {:induction false} UpsertAllKeySet(docs: map<string, Video>, vs: seq<Video>)
    ensures UpsertAll(docs, vs).Keys == docs.Keys + set v | v in vs :: v.id
  {
    if |vs| > 0 {
      var init := vs[..|vs| - 1];
      var last := vs[|vs| - 1];
      UpsertAllKeySet(docs, init);
      MergeIntoFacts(UpsertAll(docs, init), last);
      assert vs == init + [last];
      IdsSnoc(init, last);
    }
  }

  lemma IdsSnoc(init: seq<Video>, last: Video)
    ensures (set v | v in init + [last] :: v.id) == (set v | v in init :: v.id) + {last.id}
  {
    var vs := init + [last];
    forall v | v in vs ensures v.id in (set w | w in init :: w.id) + {last.id} {
      if v != last {
        assert v in init;
      }
    }
    forall v | v in init ensures v.id in (set w | w in vs :: w.id) {
      assert v in vs;
    }
    assert last in vs;
  }

  lemma {:induction false} UpsertAllKeyed(docs: map<string, Video>, vs: seq<Video>)
    requires KeyedById(docs)
    ensures KeyedById(UpsertAll(docs, vs))
  {
    if |vs| > 0 {
      UpsertAllKeyed(docs, vs[..|vs| - 1]);
      MergeIntoFacts(UpsertAll(docs, vs[..|vs| - 1]), vs[|vs| - 1]);
    }
  }

  lemma {:induction false} UpsertAllUntouched(docs: map<string, Video>, vs: seq<Video>)
    ensures docs.Keys <= UpsertAll(docs, vs).Keys
    ensures forall k :: k in docs && (forall v :: v in vs ==> v.id != k) ==> UpsertAll(docs, vs)[k] == docs[k]
  {
    if |vs| > 0 {
      var init := vs[..|vs| - 1];
      var last := vs[|vs| - 1];
      UpsertAllUntouched(docs, init);
      MergeIntoFacts(UpsertAll(docs, init), last);
      forall k | k in docs && (forall v :: v in vs ==> v.id != k) ensures UpsertAll(docs, vs)[k] == docs[k] {
        assert forall v :: v in init ==> v in vs;
        assert last in vs;
      }
    }
  }

  /** One merge write adds its id, keeps documents under their ids and touches no other document. */
  lemma MergeIntoFacts(docs: map<string, Video>, v: Video)
    ensures MergeInto(docs, v).Keys == docs.Keys + {v.id}
    ensures KeyedById(docs) ==> KeyedById(MergeInto(docs, v))
    ensures forall k :: k in docs && k != v.id ==> MergeInto(docs, v)[k] == docs[k]
  {
  }

  /** Writing the same record twice leaves the document one write leaves. */
  lemma UpsertTwice(docs: map<string, Video>, v: Video)
    ensures MergeInto(MergeInto(docs, v), v) == MergeInto(docs, v)
    ensures MergeInto(docs, v)[v.id].id == v.id
  {
  }

  /** A record with every optional field set replaces the stored document outright. */
  lemma CompleteOverwrites(docs: map<string, Video>, v: Video)
    requires v.Complete()
    ensures MergeInto(docs, v) == docs[v.id := v]
  {
  }

  /**
   * A batch of complete records acts as an overlay: the stored documents
   * overridden by the batch's own last write per id.
   */
  lemma {:induction false} UpsertAllOverlay(docs: map<string, Video>, vs: seq<Video>)
    requires forall v :: v in vs ==> v.Complete()
    ensures UpsertAll(docs, vs) == docs + UpsertAll(map[], vs)
  {
    if |vs| > 0 {
      var init := vs[..|vs| - 1];
      var v := vs[|vs| - 1];
      assert v in vs;
      assert forall w :: w in init ==> w in vs;
      UpsertAllOverlay(docs, init);
      CompleteOverwrites(UpsertAll(docs, init), v);
      CompleteOverwrites(UpsertAll(map[], init), v);
      assert UpsertAll(docs, vs) == (docs + UpsertAll(map[], init))[v.id := v];
      assert UpsertAll(map[], vs) == UpsertAll(map[], init)[v.id := v];
    }
  }

  /**
   * Re-running a batch of complete records changes nothing: two overlapping
   * syncs of the same fetch leave the collection one sync leaves.
   */
  lemma UpsertAllIdempotent(docs: map<string, Video>, vs: seq<Video>)
    requires forall v :: v in vs ==> v.Complete()
    ensures UpsertAll(UpsertAll(docs, vs), vs) == UpsertAll(docs, vs)
  {
    UpsertAllOverlay(docs, vs);
    UpsertAllOverlay(UpsertAll(docs, vs), vs);
    var m := UpsertAll(map[], vs);
    assert (docs + m) + m == docs + m;
  }

  /** A complete record written last under its id is stored exactly. */
  lemma {:induction false} UpsertAllStoresLast(docs: map<string, Video>, vs: seq<Video>, i: nat)
    requires i < |vs| && vs[i].Complete()
    requires forall j :: i < j < |vs| ==> vs[j].id != vs[i].id
    ensures vs[i].id in UpsertAll(docs, vs) && UpsertAll(docs, vs)[vs[i].id] == vs[i]
  {
    if i < |vs| - 1 {
      UpsertAllStoresLast(docs, vs[..|vs| - 1], i);
    }
  }

  // ---------------------------------------------------------------------------
  // The auto-sync policy

  /** `SYNC_COOLDOWN_MS`: one hour. */
  const SyncCooldownMs: int := 1000 * 60 * 60

  /** `syncDoc.data()?.lastSynced || 0`: a missing document (or a stored 0) reads as 0. */
  function LastSyncedValue(stamp: Option<int>): int {
    if stamp.Some? then stamp.value else 0
  }

  /** `shouldSync || mustSync`. */
  predicate ShouldFetch(cachedCount: nat, lastSynced: int, now: int) {
    now - lastSynced > SyncCooldownMs || cachedCount == 0
  }

  /**
   * What `getVideosWithAutoSync` returns: the fetched list when a fetch was
   * attempted and returned something, the cached list otherwise. A failed
   * read of the sync document skips the fetch (the error is swallowed).
   */
  function Served(cached: seq<Video>, syncReadOk: bool, lastSynced: int, now: int, fetched: seq<Video>): seq<Video> {
    if syncReadOk && ShouldFetch(|cached|, lastSynced, now) && |fetched| > 0 then fetched else cached
  }

  /** Within the cooldown, a non-empty cache is served as it is, whatever upstream holds. */
  lemma FreshCacheServed(cached: seq<Video>, syncReadOk: bool, lastSynced: int, now: int, fetched: seq<Video>)
    requires |cached| > 0 && now - lastSynced <= SyncCooldownMs
    ensures !ShouldFetch(|cached|, lastSynced, now)
    ensures Served(cached, syncReadOk, lastSynced, now, fetched) == cached
  {
  }

  /** Thirty minutes after the last sync, nothing is fetched. */
  lemma HalfHourNoFetch(cached: seq<Video>, now: int)
    requires |cached| > 0
    ensures !ShouldFetch(|cached|, now - 30 * 60 * 1000, now)
  {
  }

  /** Exactly one hour after the last sync is still inside the cooldown; one millisecond later is not. */
  lemma CooldownBoundary(cachedCount: nat, lastSynced: int)
    requires cachedCount > 0
    ensures !ShouldFetch(cachedCount, lastSynced, lastSynced + 3600000)
    ensures ShouldFetch(cachedCount, lastSynced, lastSynced + 3600001)
  {
  }

  /**
   * Ninety minutes after the last sync a fetch is attempted; when it yields
   * nothing (the fetch failed) the cached list is served.
   */
  lemma StaleFailedFetchServesCache(cached: seq<Video>, now: int)
    ensures ShouldFetch(|cached|, now - 90 * 60 * 1000, now)
    ensures Served(cached, true, now - 90 * 60 * 1000, now, []) == cached
  {
  }

  /** An empty cache forces a fetch however recent the last sync. */
  lemma EmptyCacheForcesFetch(lastSynced: int, now: int, fetched: seq<Video>)
    ensures ShouldFetch(0, lastSynced, now)
    ensures Served([], true, lastSynced, now, fetched) == fetched
  {
  }

  /** A store that was never synced is past the cooldown at any time after the first hour of the epoch. */
  lemma NeverSyncedIsStale(cachedCount: nat, now: int)
    requires now > SyncCooldownMs
    ensures ShouldFetch(cachedCount, LastSyncedValue(None), now)
  {
  }

  /**
   * A read never loses data: the served list is the cache or a non-empty
   * fetch, so it is empty only when the cache is.
   */
  lemma ServedNeverWorse(cached: seq<Video>, syncReadOk: bool, lastSynced: int, now: int, fetched: seq<Video>)
    ensures var r := Served(cached, syncReadOk, lastSynced, now, fetched);
            (r == cached || r == fetched) && (|r| == 0 ==> |cached| == 0)
  {
  }

  // ---------------------------------------------------------------------------
  // The store

  /**
   * The persisted state: the `videos` collection, and the `lastSynced`
   * field of `system/youtube_sync` (`None` while that document is absent).
   */
  class Store {
    var docs: map<string, Video>
    var lastSynced: Option<int>

    predicate Valid()
      reads this
    {
      KeyedById(docs)
    }

    constructor()
      ensures Valid() && docs == map[] && lastSynced == None
    {
      docs := map[];
      lastSynced := None;
    }

    /**
     * `saveVideos`: stage a merge write per video and the sync stamp in one
     * batch, then commit it. `clock` is the `Date.now()` read while staging;
     * `commitOk` is whether the commit succeeds. A failed commit writes
     * nothing and returns false.
     */
    method SaveVideos(newVideos: seq<Video>, clock: int, commitOk: bool) returns (ok: bool)
      requires Valid()
      modifies this
      ensures Valid()
      ensures ok == commitOk
      ensures ok ==> docs == UpsertAll(old(docs), newVideos) && lastSynced == Some(clock)
      ensures !ok ==> docs == old(docs) && lastSynced == old(lastSynced)
    {
      var staged := docs;
      for i := 0 to |newVideos|
        invariant staged == UpsertAll(docs, newVideos[..i])
      {
        assert newVideos[..i + 1][..i] == newVideos[..i];
        staged := MergeInto(staged, newVideos[i]);
      }
      assert newVideos[..|newVideos|] == newVideos;
      if !commitOk {
        return false;
      }
      UpsertAllKeys(docs, newVideos);
      docs := staged;
      lastSynced := Some(clock);
      return true;
    }

    /** `getSavedVideos`: the ordered listing, or `[]` when the query fails. */
    method GetSavedVideos(listOk: bool) returns (vs: seq<Video>)
      ensures listOk ==> vs == Listing(docs)
      ensures !listOk ==> vs == []
    {
      if !listOk {
        return [];
      }
      vs := Listing(docs);
    }

    /**
     * `getVideoById`: the stored record with that id; `None` when there is
     * none, and also when the listing query fails.
     */
    method GetVideoById(id: string, listOk: bool) returns (r: Option<Video>)
      requires Valid()
      ensures r == if listOk && id in docs then Some(docs[id]) else None
    {
      var vs := GetSavedVideos(listOk);
      r := FindById(vs, id);
      if listOk {
        ListingFind(docs, id);
      }
    }

    /**
     * `getVideosWithAutoSync`. The environment is passed in: `now` and
     * `saveClock` are the two clock reads, `listOk`, `syncReadOk` and
     * `commitOk` whether the listing query, the sync-document read and the
     * batch commit succeed, `config` and `pages` what the fetch sees.
     * `attempted` reports whether a fetch was made.
     */
    method GetVideosWithAutoSync(now: int, saveClock: int, listOk: bool, syncReadOk: bool, commitOk: bool,
                                 config: Config, pages: seq<Response>)
      returns (videos: seq<Video>, attempted: bool)
      requires Valid()
      modifies this
      ensures Valid()
      ensures var cached := if listOk then Listing(old(docs)) else [];
              && attempted == (syncReadOk && ShouldFetch(|cached|, LastSyncedValue(old(lastSynced)), now))
              && videos == Served(cached, syncReadOk, LastSyncedValue(old(lastSynced)), now, PlaylistVideos(config, pages))
      ensures var fetched := PlaylistVideos(config, pages);
              if attempted && |fetched| > 0 && commitOk
              then docs == UpsertAll(old(docs), fetched) && lastSynced == Some(saveClock)
              else docs == old(docs) && lastSynced == old(lastSynced)
    {
      videos := GetSavedVideos(listOk);
      attempted := false;
      if !syncReadOk {
        return;
      }
      var stamp := LastSyncedValue(lastSynced);
      var shouldSync := now - stamp > SyncCooldownMs;
      var mustSync := |videos| == 0;
      if shouldSync || mustSync {
        attempted := true;
        var newVideos, _ := FetchChannelVideos(config, pages);
        if |newVideos| > 0 {
          var _ := SaveVideos(newVideos, saveClock, commitOk);
          videos := newVideos;
        }
      }
    }
  }

  /** In a store keyed by id, finding an id in the listing finds its document. */
  lemma ListingFind(docs: map<string, Video>, id: string)
    requires KeyedById(docs)
    ensures FindById(Listing(docs), id) == if id in docs then Some(docs[id]) else None
  {
    var vs := Listing(docs);
    var r := FindById(vs, id);
    if id in docs {
      assert docs[id] in vs;
      var k :| k in docs && docs[k] == r.value;
    }
  }

  /**
   * After a successful auto-sync the stored document of every fetched id is
   * the fetched record itself (the last one fetched under that id).
   */
  lemma SyncedRecordsStoredExactly(docs: map<string, Video>, config: Config, pages: seq<Response>, i: nat)
    requires i < |PlaylistVideos(config, pages)|
    requires forall j :: i < j < |PlaylistVideos(config, pages)| ==>
               PlaylistVideos(config, pages)[j].id != PlaylistVideos(config, pages)[i].id
    ensures var vs := PlaylistVideos(config, pages);
            vs[i].id in UpsertAll(docs, vs) && UpsertAll(docs, vs)[vs[i].id] == vs[i]
  {
    var vs := PlaylistVideos(config, pages);
    FetchedRecordsListed(config, pages);
    assert vs[i] in vs;
    UpsertAllStoresLast(docs, vs, i);
  }

  /** Two auto-syncs that save the same fetch leave the collection one leaves. */
  lemma RepeatedSyncHarmless(docs: map<string, Video>, config: Config, pages: seq<Response>)
    ensures var vs := PlaylistVideos(config, pages);
            UpsertAll(UpsertAll(docs, vs), vs) == UpsertAll(docs, vs)
  {
    FetchedRecordsListed(config, pages);
    UpsertAllIdempotent(docs, PlaylistVideos(config, pages));
  }
}
