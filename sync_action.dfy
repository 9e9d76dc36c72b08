/**
 * `syncYoutubeVideos`, the server action that fetches, saves, revalidates
 * two pages and reports.
 */
module SyncAction {
  import opened Wrappers
  import opened Videos
  import opened PlaylistFetch
  import opened VideoStore

  /** The object the action resolves to. */
  datatype SyncResult =
    | Success(count: nat, preview: seq<Video>)
    | Failure(error: string)

  const SaveFailedMessage := "Failed to save videos"
  const SyncFailedMessage := "Sync failed"

  /** The pages revalidated after a successful save, in call order. */
  const RevalidatedPaths: seq<string> := ["/collections", "/admin"]

  /** `videos.slice(0, 5)`. */
  function Preview(videos: seq<Video>): seq<Video> {
    if |videos| <= 5 then videos else videos[..5]
  }

  /**
   * The result for a fetch that produced `fetched`, a save that returned
   * `saved`, and revalidation calls of which the one at index
   * `revalidateFailsAt` throws (none when it is 2 or more).
   */
  function Outcome(fetched: seq<Video>, saved: bool, revalidateFailsAt: nat): SyncResult {
    if !saved then Failure(SaveFailedMessage)
    else if revalidateFailsAt < |RevalidatedPaths| then Failure(SyncFailedMessage)
    else Success(|fetched|, Preview(fetched))
  }

  /**
   * The action. `clock` and `commitOk` are what the save sees;
   * `revalidated` lists the paths revalidated before the action returned.
   */
  method SyncYoutubeVideos(store: Store, config: Config, pages: seq<Response>, clock: int, commitOk: bool,
                           revalidateFailsAt: nat)
    returns (result: SyncResult, revalidated: seq<string>)
    requires store.Valid()
    modifies store
    ensures store.Valid()
    ensures result == Outcome(PlaylistVideos(config, pages), commitOk, revalidateFailsAt)
    ensures revalidated == if commitOk && revalidateFailsAt < 2 then RevalidatedPaths[..revalidateFailsAt]
                           else if commitOk then RevalidatedPaths else []
    ensures commitOk ==> store.docs == UpsertAll(old(store.docs), PlaylistVideos(config, pages))
                         && store.lastSynced == Some(clock)
    ensures !commitOk ==> store.docs == old(store.docs) && store.lastSynced == old(store.lastSynced)
  {
    var videos, _ := FetchChannelVideos(config, pages);
    var success := store.SaveVideos(videos, clock, commitOk);
    revalidated := [];
    if success {
      if revalidateFailsAt == 0 {
        return Failure(SyncFailedMessage), revalidated;
      }
      revalidated := revalidated + ["/collections"];
      if revalidateFailsAt == 1 {
        return Failure(SyncFailedMessage), revalidated;
      }
      revalidated := revalidated + ["/admin"];
      return Success(|videos|, Preview(videos)), revalidated;
    }
    return Failure(SaveFailedMessage), revalidated;
  }

  // ---------------------------------------------------------------------------
  // The result policy

  /**
   * A success reports the number of fetched videos and previews the first
   * five of them (all of them when there are fewer).
   */
  lemma SuccessReportsFetch(fetched: seq<Video>, saved: bool, revalidateFailsAt: nat)
    ensures var r := Outcome(fetched, saved, revalidateFailsAt);
            r.Success? ==> && r.count == |fetched|
                           && |r.preview| == (if |fetched| < 5 then |fetched| else 5)
                           && r.preview == fetched[..|r.preview|]
  {
  }

  /** Success is reported exactly when the save and both revalidations went through. */
  lemma SuccessIff(fetched: seq<Video>, saved: bool, revalidateFailsAt: nat)
    ensures Outcome(fetched, saved, revalidateFailsAt).Success? <==> saved && revalidateFailsAt >= 2
  {
  }

  /**
   * The two failures are told apart: a failed save reports "Failed to save
   * videos", and an error thrown after the save reports "Sync failed".
   */
  lemma FailureMessages(fetched: seq<Video>, saved: bool, revalidateFailsAt: nat)
    ensures !saved ==> Outcome(fetched, saved, revalidateFailsAt) == Failure("Failed to save videos")
    ensures saved && revalidateFailsAt < 2 ==> Outcome(fetched, saved, revalidateFailsAt) == Failure("Sync failed")
  {
  }

  /**
   * An upstream failure that the fetch swallowed is not reported as one:
   * when a page request the loop reaches fails, and the save and
   * revalidation go through, the action reports success with count 0.
   */
  lemma UpstreamFailureReportsSuccess(config: Config, pages: seq<Response>, k: nat)
    requires Reaches(pages, k)
    requires k == |pages| || pages[k].Unavailable?
    ensures Outcome(PlaylistVideos(config, pages), true, 2) == Success(0, [])
  {
    FailureDiscardsEarlierPages(config, pages, k);
  }

  /**
   * Saving an empty fetch still stamps `lastSynced`, so after a manual sync
   * whose fetch failed, an automatic read within the hour serves a
   * non-empty cache without fetching.
   */
  lemma FailedManualSyncDefersAutoSync(cachedCount: nat, clock: int, now: int)
    requires cachedCount > 0 && clock <= now <= clock + SyncCooldownMs
    ensures !ShouldFetch(cachedCount, LastSyncedValue(Some(clock)), now)
  {
  }
}
