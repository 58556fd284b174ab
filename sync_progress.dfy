/**
 * The cross-device sync endpoint of netlify/functions/sync-progress.js. A sync code names a
 * blob `sync-data/<CODE>.json` in the bucket; GET reads it (or hands out a fresh code), POST
 * merges the posted watch progress into it, newest record per video first.
 *
 * The bucket is a map from object key to blob that the handler receives and returns;
 * `Math.random` is a nondeterministic choice of a real in [0, 1) and `Date.now()` a parameter.
 */
module SyncProgress {
  import opened Wrappers
  import opened Text
  import StorageConfig
  import WatchProgress

  /** A watch-progress map: video key to its record. */
  type Progress = map<string, WatchProgress.ProgressRecord>

  /** The symbols of a sync code. */
  const Alphabet := "ABCDEFGHJKLMNPQRSTUVWXYZ23456789"

  const CodeLength: nat := 6

  /** 32 symbols, without `0`, `O`, `1` and `I`; `L` is among them. */
  lemma AlphabetSymbols()
    ensures |Alphabet| == 32
    ensures '0' !in Alphabet && 'O' !in Alphabet && '1' !in Alphabet && 'I' !in Alphabet
    ensures 'L' in Alphabet
  {
    AlphabetUnambiguous();
    assert Alphabet[10] == 'L';
  }

  lemma AlphabetUnambiguous()
    ensures forall i | 0 <= i < |Alphabet| :: Unambiguous(Alphabet[i])
  {
    forall i | 0 <= i < |Alphabet|
      ensures Unambiguous(Alphabet[i])
    {
    }
  }

  /** An upper-case letter other than `O` and `I`, or a digit other than `0` and `1`. */
  predicate Unambiguous(c: char) {
    ('A' <= c <= 'Z' && c != 'O' && c != 'I') || ('2' <= c <= '9')
  }

  /** A code the generator can produce: six symbols of the alphabet. */
  predicate IsGeneratedCode(code: string) {
    |code| == CodeLength && forall i :: 0 <= i < |code| ==> code[i] in Alphabet
  }

  /** `generateSyncCode()`: six times, the symbol at `Math.floor(Math.random() * 32)`. */
  method GenerateSyncCode() returns (code: string)
    ensures IsGeneratedCode(code)
    ensures forall i :: 0 <= i < |code| ==> code[i] != '0' && code[i] != 'O' && code[i] != '1' && code[i] != 'I'
  {
    AlphabetSymbols();
    code := "";
    for i := 0 to CodeLength
      invariant |code| == i
      invariant forall j :: 0 <= j < i ==> code[j] in Alphabet
    {
      var r: real :| 0.0 <= r < 1.0;
      var index := (r * |Alphabet| as real).Floor;
      code := code + [Alphabet[index]];
    }
  }

  // ---------------------------------------------------------------- blob keys

  /** `` `${SYNC_FOLDER}/${code.toUpperCase()}.json` ``, shared by the read and the write. */
  function BlobKey(code: string): (key: string)
    ensures StartsWith(key, "sync-data/") && EndsWith(key, ".json")
    ensures |key| == |code| + 15
  {
    "sync-data/" + ToUpper(code) + ".json"
  }

  /** Two codes address the same blob exactly when they agree after upper-casing. */
  lemma BlobKeySameExactly(a: string, b: string)
    ensures BlobKey(a) == BlobKey(b) <==> ToUpper(a) == ToUpper(b)
  {
    if BlobKey(a) == BlobKey(b) {
      assert ToUpper(a) == BlobKey(a)[10..|BlobKey(a)| - 5];
      assert ToUpper(b) == BlobKey(b)[10..|BlobKey(b)| - 5];
    }
  }

  /** Codes that differ only in the case of their letters address the same blob. */
  lemma BlobKeyIgnoresCase(code: string)
    ensures BlobKey(ToLower(code)) == BlobKey(code)
  {
    assert ToUpper(ToLower(code)) == ToUpper(code);
  }

  // ---------------------------------------------------------------- merging

  /**
   * The merged map of the POST handler: the stored records spread, the incoming ones spread
   * over them, then for each key on both sides the stored record put back when it is strictly newer.
   */
  function Merged(stored: Progress, incoming: Progress): (r: Progress)
    ensures r.Keys == stored.Keys + incoming.Keys
    ensures forall k | k in r :: (k in stored && r[k] == stored[k]) || (k in incoming && r[k] == incoming[k])
  {
    map k | k in stored.Keys + incoming.Keys ::
      if k in stored && k in incoming && stored[k].updatedAt > incoming[k].updatedAt then stored[k]
      else if k in incoming then incoming[k]
      else stored[k]
  }

  /**
   * Last write wins per video: a key on one side keeps that side's record; for a key on both
   * sides the result carries the later `updatedAt`, and a tie goes to the incoming record.
   */
  lemma MergedLastWriteWins(stored: Progress, incoming: Progress, k: string)
    requires k in stored || k in incoming
    ensures k in stored && k !in incoming ==> Merged(stored, incoming)[k] == stored[k]
    ensures k !in stored && k in incoming ==> Merged(stored, incoming)[k] == incoming[k]
    ensures k in stored && k in incoming ==>
      && Merged(stored, incoming)[k].updatedAt >= stored[k].updatedAt
      && Merged(stored, incoming)[k].updatedAt >= incoming[k].updatedAt
      && (Merged(stored, incoming)[k] == stored[k] <==> stored[k].updatedAt > incoming[k].updatedAt || stored[k] == incoming[k])
  {
  }

  /** Posting the very map that is stored changes nothing. */
  lemma MergedIdempotent(m: Progress)
    ensures Merged(m, m) == m
  {
  }

  /** Posting into an empty blob stores the posted map; posting nothing keeps the stored one. */
  lemma MergedWithEmpty(m: Progress)
    ensures Merged(map[], m) == m
    ensures Merged(m, map[]) == m
  {
  }

  /** The spread and the `for (const key of Object.keys(mergedProgress))` loop of the POST handler. */
  method MergeProgress(stored: Progress, incoming: Progress) returns (merged: Progress)
    ensures merged == Merged(stored, incoming)
  {
    merged := stored + incoming;
    var keys := merged.Keys;
    while keys != {}
      invariant merged.Keys == stored.Keys + incoming.Keys
      invariant keys <= merged.Keys
      invariant forall k | k in merged && k !in keys :: merged[k] == Merged(stored, incoming)[k]
      invariant forall k | k in keys :: merged[k] == (stored + incoming)[k]
      decreases keys
    {
      var k :| k in keys;
      if k in stored && k in incoming {
        if stored[k].updatedAt > incoming[k].updatedAt {
          merged := merged[k := stored[k]];
        }
      }
      keys := keys - {k};
    }
  }

  // ---------------------------------------------------------------- the handler

  /** A stored blob: `{ watchProgress, lastUpdated }`. */
  datatype Blob = Blob(watchProgress: Progress, lastUpdated: int)

  /** The `progress` field of a POST body: absent or falsy, some other non-object, or a record map. */
  datatype ProgressField = Missing | NotAnObject | Records(records: Progress)

  /** The parsed POST body; a missing body parses as `{}`. */
  datatype PostBody = PostBody(code: Option<string>, progress: ProgressField)

  datatype SyncReply =
    | NoContent
    | StorageNotConfigured
    | NewCode(code: string)
    | CodeNotFound
    | Found(code: string, progress: Progress, lastUpdated: int)
    | CodeRequired
    | ProgressRequired
    | Saved(code: string, lastUpdated: int)
    | InternalError
    | MethodNotAllowed
  {
    function StatusCode(): (status: nat)
      ensures status == 204 <==> this.NoContent?
      ensures status == 200 <==> (this.NewCode? || this.Found? || this.Saved?)
      ensures status == 400 <==> (this.CodeRequired? || this.ProgressRequired?)
      ensures status == 404 <==> this.CodeNotFound?
      ensures status == 405 <==> this.MethodNotAllowed?
      ensures status == 500 <==> (this.StorageNotConfigured? || this.InternalError?)
    {
      match this
      case NoContent => 204
      case StorageNotConfigured => 500
      case NewCode(_) => 200
      case CodeNotFound => 404
      case Found(_, _, _) => 200
      case CodeRequired => 400
      case ProgressRequired => 400
      case Saved(_, _) => 200
      case InternalError => 500
      case MethodNotAllowed => 405
    }
  }

  /** `!code` for a string-valued field. */
  predicate Falsy(code: Option<string>) {
    code.None? || code.value == ""
  }

  /** GET with a code: the blob under that code, or 404 when there is none. */
  function Lookup(code: string, blobs: map<string, Blob>): (r: SyncReply)
    ensures r.CodeNotFound? || r.Found?
    ensures r.CodeNotFound? <==> BlobKey(code) !in blobs
    ensures BlobKey(code) in blobs ==>
      && r.Found?
      && r.code == ToUpper(code)
      && r.progress == blobs[BlobKey(code)].watchProgress
      && r.lastUpdated == blobs[BlobKey(code)].lastUpdated
  {
    var key := BlobKey(code);
    if key !in blobs then CodeNotFound
    else Found(ToUpper(code), blobs[key].watchProgress, blobs[key].lastUpdated)
  }

  /** The records stored under a code, or none. */
  function StoredRecords(code: string, blobs: map<string, Blob>): Progress {
    if BlobKey(code) in blobs then blobs[BlobKey(code)].watchProgress else map[]
  }

  /** POST: validate, merge into the stored blob and write it back with `lastUpdated = now`. */
  function Post(body: PostBody, blobs: map<string, Blob>, now: int): (r: (SyncReply, map<string, Blob>))
    ensures r.0.CodeRequired? <==> Falsy(body.code)
    ensures r.0.ProgressRequired? <==> !Falsy(body.code) && !body.progress.Records?
    ensures r.0.Saved? <==> !Falsy(body.code) && body.progress.Records?
    ensures !r.0.Saved? ==> r.1 == blobs
    ensures r.0.Saved? ==>
      && r.0 == Saved(ToUpper(body.code.value), now)
      && r.1 == blobs[BlobKey(body.code.value) :=
                  Blob(Merged(StoredRecords(body.code.value, blobs), body.progress.records), now)]
  {
    if Falsy(body.code) then (CodeRequired, blobs)
    else if !body.progress.Records? then (ProgressRequired, blobs)
    else
      var code := body.code.value;
      var merged := Merged(StoredRecords(code, blobs), body.progress.records);
      (Saved(ToUpper(code), now), blobs[BlobKey(code) := Blob(merged, now)])
  }

  /**
   * After a successful POST, a GET with the same code in any letter case finds the merged
   * progress, stamped with the time of the POST.
   */
  lemma PostThenLookup(body: PostBody, blobs: map<string, Blob>, now: int, code: string)
    requires Post(body, blobs, now).0.Saved?
    requires ToUpper(code) == ToUpper(body.code.value)
    ensures Lookup(code, Post(body, blobs, now).1)
      == Found(ToUpper(code), Merged(StoredRecords(body.code.value, blobs), body.progress.records), now)
  {
    BlobKeySameExactly(code, body.code.value);
  }

  /**
   * `exports.handler` of sync-progress.js. `queryCode` is `queryStringParameters?.code`;
   * `body` is `None` when `JSON.parse` throws (the 500 of the catch block).
   */
  method HandleSync(
    httpMethod: string, queryCode: Option<string>, body: Option<PostBody>,
    env: StorageConfig.Env, blobs: map<string, Blob>, now: int)
    returns (reply: SyncReply, stored: map<string, Blob>)
    ensures !reply.Saved? ==> stored == blobs
    ensures httpMethod == "OPTIONS" ==> reply == NoContent
    ensures httpMethod != "OPTIONS" && StorageConfig.GetStorageClient(None, env).None? ==> reply == StorageNotConfigured
    ensures httpMethod != "OPTIONS" && StorageConfig.GetStorageClient(None, env).Some? ==>
      && (httpMethod == "GET" && Falsy(queryCode) ==> reply.NewCode? && IsGeneratedCode(reply.code))
      && (httpMethod == "GET" && !Falsy(queryCode) ==> reply == Lookup(queryCode.value, blobs))
      && (httpMethod == "POST" && body.None? ==> reply == InternalError)
      && (httpMethod == "POST" && body.Some? ==> (reply, stored) == Post(body.value, blobs, now))
      && (httpMethod != "GET" && httpMethod != "POST" ==> reply == MethodNotAllowed)
  {
    stored := blobs;
    if httpMethod == "OPTIONS" {
      reply := NoContent;
    } else if StorageConfig.GetStorageClient(None, env).None? {
      reply := StorageNotConfigured;
    } else if httpMethod == "GET" {
      if Falsy(queryCode) {
        var code := GenerateSyncCode();
        reply := NewCode(code);
      } else {
        reply := Lookup(queryCode.value, blobs);
      }
    } else if httpMethod == "POST" {
      if body.None? {
        reply := InternalError;
      } else {
        var request := body.value;
        if Falsy(request.code) {
          reply := CodeRequired;
        } else if !request.progress.Records? {
          reply := ProgressRequired;
        } else {
          var code := request.code.value;
          var merged := MergeProgress(StoredRecords(code, blobs), request.progress.records);
          stored := blobs[BlobKey(code) := Blob(merged, now)];
          reply := Saved(ToUpper(code), now);
        }
      }
    } else {
      reply := MethodNotAllowed;
    }
  }
}
