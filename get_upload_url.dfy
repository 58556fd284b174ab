/**
 * The upload authorisation of netlify/functions/get-upload-url.js: validates the request,
 * checks the Cloudflare R2 configuration, and names the object the browser will upload to
 * `videos/<timestamp>-<sanitised file name>`. Signing the URL is left to the storage SDK;
 * the model states what the signed request is for.
 */
module UploadUrl {
  import opened Wrappers
  import opened Text
  import StorageConfig
  import ListVideos

  /** The fields the handler reads from the parsed JSON body. */
  datatype UploadBody = UploadBody(filename: Option<string>, contentType: Option<string>)

  /** The object the presigned `PutObjectCommand` authorises. */
  datatype UploadGrant = UploadGrant(
    endpoint: string, bucket: string, key: string, contentType: string,
    originalFilename: string, expiresIn: nat)

  datatype UploadReply =
    | Preflight
    | MethodNotAllowed
    | FilenameRequired
    | ConfigurationError
    | UploadFailed
    | UploadAuthorised(grant: UploadGrant)
  {
    function StatusCode(): (code: nat)
      ensures code == 200 <==> (this.Preflight? || this.UploadAuthorised?)
      ensures code == 400 <==> this.FilenameRequired?
      ensures code == 405 <==> this.MethodNotAllowed?
      ensures code == 500 <==> (this.ConfigurationError? || this.UploadFailed?)
    {
      match this
      case Preflight => 200
      case MethodNotAllowed => 405
      case FilenameRequired => 400
      case ConfigurationError => 500
      case UploadFailed => 500
      case UploadAuthorised(_) => 200
    }
  }

  /** Seconds the presigned URL stays valid. */
  const ExpiresIn := 3600

  /** The characters `/[^a-zA-Z0-9.-]/` leaves alone. */
  predicate IsSafe(c: char) {
    IsLetter(c) || IsDigit(c) || c == '.' || c == '-'
  }

  /** `filename.replace(/[^a-zA-Z0-9.-]/g, '_')`. */
  function Sanitize(filename: string): (r: string)
    ensures |r| == |filename|
    ensures forall i :: 0 <= i < |r| ==> IsSafe(r[i]) || r[i] == '_'
    ensures forall i :: 0 <= i < |r| && IsSafe(filename[i]) ==> r[i] == filename[i]
    ensures forall i :: 0 <= i < |r| && !IsSafe(filename[i]) ==> r[i] == '_'
  {
    seq(|filename|, i requires 0 <= i < |filename| => if IsSafe(filename[i]) then filename[i] else '_')
  }

  /** Sanitising twice changes nothing more. */
  lemma SanitizeIdempotent(filename: string)
    ensures Sanitize(Sanitize(filename)) == Sanitize(filename)
  {
    var r := Sanitize(filename);
    forall i | 0 <= i < |r|
      ensures Sanitize(r)[i] == r[i]
    {
      if r[i] == '_' {
        assert !IsSafe('_');
      }
    }
  }

  /** A sanitised name holds no path separator and no line terminator. */
  lemma SanitizedIsPlain(filename: string)
    ensures '/' !in Sanitize(filename)
    ensures forall i :: 0 <= i < |filename| ==> !IsLineTerminator(Sanitize(filename)[i])
  {
  }

  /** `` `videos/${timestamp}-${sanitizedFilename}` `` */
  function UploadKey(timestamp: nat, filename: string): (key: string)
    ensures StartsWith(key, "videos/")
  {
    "videos/" + NatToDecimal(timestamp) + "-" + Sanitize(filename)
  }

  /** All four R2 variables are truthy. */
  predicate R2Configured(env: StorageConfig.Env) {
    && StorageConfig.IsSet(env, "R2_ACCOUNT_ID")
    && StorageConfig.IsSet(env, "R2_ACCESS_KEY_ID")
    && StorageConfig.IsSet(env, "R2_SECRET_ACCESS_KEY")
    && StorageConfig.IsSet(env, "R2_BUCKET_NAME")
  }

  /**
   * `exports.handler` of get-upload-url.js. `body` is `None` when `JSON.parse` throws (the
   * 500 of the catch block); `now` is `Date.now()`.
   */
  function GetUploadUrl(httpMethod: string, body: Option<UploadBody>, env: StorageConfig.Env, now: nat)
    : (r: UploadReply)
    ensures httpMethod == "OPTIONS" ==> r == Preflight
    ensures httpMethod != "OPTIONS" && httpMethod != "POST" ==> r == MethodNotAllowed
    ensures r.FilenameRequired? <==>
      httpMethod == "POST" && body.Some? && (body.value.filename.None? || body.value.filename.value == "")
    ensures httpMethod == "POST" && body.None? ==> r == UploadFailed
    ensures r.ConfigurationError? ==> !R2Configured(env)
    ensures r.UploadAuthorised? <==>
      httpMethod == "POST" && body.Some? && body.value.filename.Some? && body.value.filename.value != ""
      && R2Configured(env)
    ensures r.UploadAuthorised? ==>
      var filename := body.value.filename.value;
      && r.grant.key == UploadKey(now, filename)
      && r.grant.originalFilename == filename
      && r.grant.bucket == env["R2_BUCKET_NAME"]
      && r.grant.endpoint == "https://" + env["R2_ACCOUNT_ID"] + ".r2.cloudflarestorage.com"
      && r.grant.expiresIn == 3600
      && (body.value.contentType.Some? && body.value.contentType.value != "" ==>
            r.grant.contentType == body.value.contentType.value)
      && (body.value.contentType.None? || body.value.contentType.value == "" ==>
            r.grant.contentType == "video/mp4")
  {
    if httpMethod == "OPTIONS" then Preflight
    else if httpMethod != "POST" then MethodNotAllowed
    else if body.None? then UploadFailed
    else if body.value.filename.None? || body.value.filename.value == "" then FilenameRequired
    else if !R2Configured(env) then ConfigurationError
    else
      var filename := body.value.filename.value;
      var contentType :=
        if body.value.contentType.Some? && body.value.contentType.value != "" then body.value.contentType.value
        else "video/mp4";
      UploadAuthorised(UploadGrant(
        "https://" + env["R2_ACCOUNT_ID"] + ".r2.cloudflarestorage.com",
        env["R2_BUCKET_NAME"], UploadKey(now, filename), contentType, filename, ExpiresIn))
  }

  // ---------------------------------------------------------------- round trip with the listing

  /** The listing reads an uploaded key back as the upload's own file name. */
  lemma FileNameOfUploadKey(timestamp: nat, filename: string)
    ensures ListVideos.FileName(UploadKey(timestamp, filename)) == NatToDecimal(timestamp) + "-" + Sanitize(filename)
  {
    var name := NatToDecimal(timestamp) + "-" + Sanitize(filename);
    assert UploadKey(timestamp, filename) == "videos" + ['/'] + name;
    assert '/' !in NatToDecimal(timestamp) by {
      forall i | 0 <= i < |NatToDecimal(timestamp)| ensures NatToDecimal(timestamp)[i] != '/' {
        assert IsDigit(NatToDecimal(timestamp)[i]);
      }
    }
    SanitizedIsPlain(filename);
    AfterLastOfJoin("videos", '/', name);
  }

  /**
   * Uploading a file and listing it again shows the name the user picked, sanitised, with
   * underscores read back as spaces and without its extension: the timestamp prefix the
   * upload adds is exactly what the listing strips.
   */
  lemma UploadDisplayRoundTrip(timestamp: nat, filename: string)
    requires filename != ""
    ensures ListVideos.DisplayName(ListVideos.FileName(UploadKey(timestamp, filename)))
      == ListVideos.StripExtension(ListVideos.UnderscoresToSpaces(Sanitize(filename)))
  {
    FileNameOfUploadKey(timestamp, filename);
    SanitizedIsPlain(filename);
    ListVideos.TimestampedRestOfJoin(NatToDecimal(timestamp), Sanitize(filename));
  }
}
