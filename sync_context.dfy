/**
 * The client side of sync, src/context/SyncContext.jsx: the state cells of `SyncProvider`
 * and the operations that adopt a code, push local progress and pull remote progress.
 *
 * The two `localStorage` entries the provider uses are fields of the same object. A call to the
 * sync endpoint is a function parameter from the request it sends to the outcome it receives;
 * `Date.now()` is a parameter.
 */
module SyncContext {
  import opened Wrappers
  import opened Text
  import WatchProgress
  import SyncProgress

  type Progress = map<string, WatchProgress.ProgressRecord>

  /** The symbols of a locally generated code. */
  const LocalAlphabet := "ABCDEFGHJKLMNPQRSTUVWXYZ23456789"

  /** The client falls back to exactly the server's alphabet. */
  lemma LocalAlphabetIsServerAlphabet()
    ensures LocalAlphabet == SyncProgress.Alphabet
  {
  }

  /** What a GET to the sync endpoint yields on the client. */
  datatype GetOutcome =
    | Fetched(code: Option<string>, progress: Option<Progress>)  // `response.data`; `None` for a falsy field
    | NotFound                                                  // the request failed with status 404
    | Unreachable                                               // any other failure

  const InvalidCode := "Invalid sync code"
  const CodeNotFound := "Sync code not found"
  const ConnectFailed := "Failed to connect. Try again."
  const PushFailed := "Sync failed. Will retry."
  const PullFailed := "Could not fetch progress"

  /**
   * The pull rule: a remote record replaces the local one when there is no local record, or
   * when its `updatedAt` is truthy (non-zero) and strictly greater; every other local record stays.
   */
  function Pulled(local: Progress, remote: Progress): (r: Progress)
    ensures r.Keys == local.Keys + remote.Keys
    ensures forall k | k in r :: (k in local && r[k] == local[k]) || (k in remote && r[k] == remote[k])
  {
    map k | k in local.Keys + remote.Keys ::
      if k in remote && (k !in local || (remote[k].updatedAt != 0 && remote[k].updatedAt > local[k].updatedAt))
      then remote[k] else local[k]
  }

  /**
   * Local keys the remote map lacks keep their records; for a key on both sides the remote
   * record wins only when strictly newer (and non-zero), so a tie keeps the local one.
   */
  lemma PulledKeepsLocal(local: Progress, remote: Progress, k: string)
    requires k in local
    ensures k !in remote ==> Pulled(local, remote)[k] == local[k]
    ensures k in remote && remote[k].updatedAt <= local[k].updatedAt ==> Pulled(local, remote)[k] == local[k]
    ensures k in remote && remote[k].updatedAt != 0 && remote[k].updatedAt > local[k].updatedAt ==>
      Pulled(local, remote)[k] == remote[k]
  {
  }

  /** Pulling the very map that is held locally changes nothing. */
  lemma PulledIdempotent(m: Progress)
    ensures Pulled(m, m) == m
  {
  }

  /**
   * Where the server keeps the incoming record on a tie, the client keeps the local one: for a
   * key whose two records carry the same non-zero `updatedAt`, a push stores the pushed record
   * and a pull keeps the local record.
   */
  lemma TieGoesToTheReceiver(mine: Progress, theirs: Progress, k: string)
    requires k in mine && k in theirs && mine[k].updatedAt == theirs[k].updatedAt
    ensures SyncProgress.Merged(theirs, mine)[k] == mine[k]
    ensures Pulled(mine, theirs)[k] == mine[k]
  {
  }

  /** The `for (const [key, value] of Object.entries(response.data.progress))` loop. */
  method PullMerge(local: Progress, remote: Progress) returns (merged: Progress)
    ensures merged == Pulled(local, remote)
  {
    ghost var target := Pulled(local, remote);
    merged := local;
    var keys := remote.Keys;
    while keys != {}
      invariant keys <= remote.Keys
      invariant merged.Keys == local.Keys + (remote.Keys - keys)
      invariant forall k | k in merged && k !in keys :: merged[k] == target[k]
      invariant forall k | k in keys && k in local :: merged[k] == local[k]
      decreases keys
    {
      var key :| key in keys;
      var value := remote[key];
      PulledAt(local, remote, key);
      if key !in local || (value.updatedAt != 0 && value.updatedAt > local[key].updatedAt) {
        merged := merged[key := value];
      }
      keys := keys - {key};
    }
    assert merged.Keys == target.Keys;
  }

  /** The record the pull rule picks for a key of the remote map. */
  lemma PulledAt(local: Progress, remote: Progress, k: string)
    requires k in remote
    ensures Pulled(local, remote)[k] ==
      if k !in local || (remote[k].updatedAt != 0 && remote[k].updatedAt > local[k].updatedAt)
      then remote[k] else local[k]
  {
  }

  /** `generateLocalCode()`: six symbols drawn with `Math.random`. */
  method GenerateLocalCode() returns (code: string)
    ensures SyncProgress.IsGeneratedCode(code)
  {
    code := "";
    for i := 0 to 6
      invariant |code| == i
      invariant forall j :: 0 <= j < i ==> code[j] in SyncProgress.Alphabet
    {
      var r: real :| 0.0 <= r < 1.0;
      var index := (r * |LocalAlphabet| as real).Floor;
      code := code + [LocalAlphabet[index]];
    }
  }

  /** The state cells of `SyncProvider` and the two `localStorage` entries it reads and writes. */
  class SyncState {
    var syncCode: Option<string>
    var isSyncing: bool
    var lastSynced: Option<int>
    var syncError: Option<string>
    /** `localStorage['videostream_sync_code']` */
    var storedCode: Option<string>
    /** `localStorage['videoWatchProgress']` */
    var localProgress: Progress

    /** The provider as first rendered, over what `localStorage` already holds. */
    constructor (storedCode: Option<string>, localProgress: Progress)
      ensures this.syncCode.None? && !this.isSyncing && this.lastSynced.None? && this.syncError.None?
      ensures this.storedCode == storedCode && this.localProgress == localProgress
    {
      this.syncCode := None;
      this.isSyncing := false;
      this.lastSynced := None;
      this.syncError := None;
      this.storedCode := storedCode;
      this.localProgress := localProgress;
    }

    /** A code is active: `syncCode` is truthy. */
    predicate HasCode()
      reads this
    {
      syncCode.Some? && syncCode.value != ""
    }

    /**
     * `setSyncCode(newCode)`: reject anything but six characters, look the upper-cased code up,
     * and on success adopt it and pull the remote progress when there is any.
     */
    method SetSyncCode(newCode: Option<string>, lookup: string -> GetOutcome, now: int) returns (ok: bool)
      modifies this
      ensures newCode.Some? && |newCode.value| == 6 ==> !isSyncing
      ensures unchanged(this`lastSynced) || ok
      ensures (newCode.None? || |newCode.value| != 6) ==>
        !ok && syncError == Some(InvalidCode) && isSyncing == old(isSyncing)
        && syncCode == old(syncCode) && storedCode == old(storedCode) && localProgress == old(localProgress)
      ensures newCode.Some? && |newCode.value| == 6 ==>
        var formatted := ToUpper(newCode.value);
        match lookup(formatted)
        case Fetched(code, progress) =>
          if code.Some? && code.value != "" then
            && ok && syncCode == Some(formatted) && storedCode == Some(formatted)
            && syncError.None? && lastSynced == Some(now)
            && localProgress ==
                 (if progress.Some? && |progress.value| > 0 then Pulled(old(localProgress), progress.value)
                  else old(localProgress))
          else
            && !ok && syncError.None?
            && syncCode == old(syncCode) && storedCode == old(storedCode) && localProgress == old(localProgress)
        case NotFound =>
          && !ok && syncError == Some(CodeNotFound)
          && syncCode == old(syncCode) && storedCode == old(storedCode) && localProgress == old(localProgress)
        case Unreachable =>
          && !ok && syncError == Some(ConnectFailed)
          && syncCode == old(syncCode) && storedCode == old(storedCode) && localProgress == old(localProgress)
    {
      if newCode.None? || |newCode.value| != 6 {
        syncError := Some(InvalidCode);
        return false;
      }
      var formatted := ToUpper(newCode.value);
      isSyncing := true;
      syncError := None;
      var response := lookup(formatted);
      ok := false;
      match response {
        case Fetched(code, progress) =>
          if code.Some? && code.value != "" {
            storedCode := Some(formatted);
            syncCode := Some(formatted);
            if progress.Some? && |progress.value| > 0 {
              var merged := PullMerge(localProgress, progress.value);
              localProgress := merged;
            }
            lastSynced := Some(now);
            ok := true;
          }
        case NotFound =>
          syncError := Some(CodeNotFound);
        case Unreachable =>
          syncError := Some(ConnectFailed);
      }
      isSyncing := false;
    }

    /** `syncToServer()`: post the local progress under the active code. */
    method SyncToServer(post: (string, Progress) -> bool, now: int) returns (ok: bool)
      modifies this
      ensures unchanged(this`syncCode) && unchanged(this`storedCode) && unchanged(this`localProgress)
      ensures !old(HasCode()) ==> !ok && unchanged(this)
      ensures old(HasCode()) ==>
        && ok == post(old(syncCode).value, old(localProgress))
        && !isSyncing
        && (ok ==> syncError.None? && lastSynced == Some(now))
        && (!ok ==> syncError == Some(PushFailed) && lastSynced == old(lastSynced))
    {
      if !HasCode() {
        return false;
      }
      isSyncing := true;
      syncError := None;
      ok := post(syncCode.value, localProgress);
      if ok {
        lastSynced := Some(now);
      } else {
        syncError := Some(PushFailed);
      }
      isSyncing := false;
    }

    /** `syncFromServer()`: fetch the progress under the active code and pull it into the local map. */
    method SyncFromServer(lookup: string -> GetOutcome, now: int) returns (ok: bool)
      modifies this
      ensures unchanged(this`syncCode) && unchanged(this`storedCode)
      ensures !old(HasCode()) ==> !ok && unchanged(this)
      ensures old(HasCode()) ==>
        && !isSyncing
        && match lookup(old(syncCode).value)
           case Fetched(_, progress) =>
             && ok == progress.Some? && syncError.None?
             && (ok ==> localProgress == Pulled(old(localProgress), progress.value) && lastSynced == Some(now))
             && (!ok ==> localProgress == old(localProgress) && lastSynced == old(lastSynced))
           case _ =>
             && !ok && syncError == Some(PullFailed)
             && localProgress == old(localProgress) && lastSynced == old(lastSynced)
    {
      if !HasCode() {
        return false;
      }
      isSyncing := true;
      syncError := None;
      var response := lookup(syncCode.value);
      ok := false;
      match response {
        case Fetched(_, progress) =>
          if progress.Some? {
            var merged := PullMerge(localProgress, progress.value);
            localProgress := merged;
            lastSynced := Some(now);
            ok := true;
          }
        case NotFound =>
          syncError := Some(PullFailed);
        case Unreachable =>
          syncError := Some(PullFailed);
      }
      isSyncing := false;
    }
  }
}
