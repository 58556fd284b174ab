/**
 * Storage provider selection (netlify/functions/storage-config.js).
 *
 * The environment is a map from variable name to value; an absent name is an unset
 * variable. Resolution is a pure function of the preference and the environment.
 */
module StorageConfig {
  import opened Wrappers

  type Env = map<string, string>

  /** JavaScript truthiness of `process.env[name]`: set and not empty. */
  predicate IsSet(env: Env, name: string) {
    name in env && env[name] != ""
  }

  /** `process.env[name] || fallback`. */
  function EnvOr(env: Env, name: string, fallback: string): (r: string)
    ensures IsSet(env, name) ==> r == env[name]
    ensures !IsSet(env, name) ==> r == fallback
  {
    if IsSet(env, name) then env[name] else fallback
  }

  /** `process.env[name]` read as an optional value (an empty value stays present). */
  function EnvGet(env: Env, name: string): Option<string> {
    if name in env then Some(env[name]) else None
  }

  /** `${process.env[name]}` inside a template literal: an unset variable prints as "undefined". */
  function EnvText(env: Env, name: string): string {
    if name in env then env[name] else "undefined"
  }

  /** `hasR2`: both Cloudflare R2 credentials are set. */
  predicate HasR2(env: Env) {
    IsSet(env, "R2_ACCESS_KEY_ID") && IsSet(env, "R2_SECRET_ACCESS_KEY")
  }

  /** `hasDO`: both DigitalOcean Spaces credentials are set. */
  predicate HasDO(env: Env) {
    IsSet(env, "DO_SPACES_ACCESS_KEY_ID") && IsSet(env, "DO_SPACES_SECRET_ACCESS_KEY")
  }

  datatype Provider = DigitalOcean | R2 {
    /** The provider's identifier on the wire: `'do'` or `'r2'`. */
    function Name(): string {
      match this
      case DigitalOcean => "do"
      case R2 => "r2"
    }
  }

  /** The S3 client configuration and bucket that `getStorageClient` returns. */
  datatype StorageClient = StorageClient(
    provider: Provider,
    region: string,
    endpoint: string,
    accessKeyId: string,
    secretAccessKey: string,
    bucketName: Option<string>)

  /** A preference counts only when truthy: `undefined` and `''` mean auto-detect. */
  predicate NoPreference(preferred: Option<string>) {
    preferred.None? || preferred.value == ""
  }

  /**
   * `getStorageClient(preferredProvider)`: the client for the preferred provider, or with no
   * preference the auto-detected one; `None` stands for `{ s3Client: null, provider: null }`.
   */
  function GetStorageClient(preferred: Option<string>, env: Env): (r: Option<StorageClient>)
    // auto-detection prefers DigitalOcean, then R2, else nothing
    ensures NoPreference(preferred) ==>
      && (HasDO(env) ==> r.Some? && r.value.provider == DigitalOcean)
      && (!HasDO(env) && HasR2(env) ==> r.Some? && r.value.provider == R2)
      && (!HasDO(env) && !HasR2(env) ==> r.None?)
    // an explicit preference is honoured only with complete credentials, never with a fallback
    ensures preferred == Some("do") ==> (r.Some? <==> HasDO(env)) && (r.Some? ==> r.value.provider == DigitalOcean)
    ensures preferred == Some("r2") ==> (r.Some? <==> HasR2(env)) && (r.Some? ==> r.value.provider == R2)
    ensures !NoPreference(preferred) && preferred.value != "do" && preferred.value != "r2" ==> r.None?
    // the defaults a DigitalOcean client is built with
    ensures r.Some? && r.value.provider == DigitalOcean ==>
      && r.value.region == EnvOr(env, "DO_SPACES_REGION", "sfo3")
      && r.value.endpoint == "https://" + r.value.region + ".digitaloceanspaces.com"
      && r.value.bucketName == Some(EnvOr(env, "DO_SPACES_BUCKET_NAME", "my-movies"))
      && HasDO(env)
      && r.value.accessKeyId == env["DO_SPACES_ACCESS_KEY_ID"]
      && r.value.secretAccessKey == env["DO_SPACES_SECRET_ACCESS_KEY"]
    ensures r.Some? && r.value.provider == R2 ==>
      && r.value.region == "auto"
      && r.value.endpoint == "https://" + EnvText(env, "R2_ACCOUNT_ID") + ".r2.cloudflarestorage.com"
      && r.value.bucketName == EnvGet(env, "R2_BUCKET_NAME")
      && HasR2(env)
      && r.value.accessKeyId == env["R2_ACCESS_KEY_ID"]
      && r.value.secretAccessKey == env["R2_SECRET_ACCESS_KEY"]
  {
    var hasR2 := HasR2(env);
    var hasDO := HasDO(env);
    var provider :=
      if !NoPreference(preferred) then preferred
      else if hasDO then Some("do")
      else if hasR2 then Some("r2")
      else None;
    if provider == Some("do") && hasDO then
      var region := EnvOr(env, "DO_SPACES_REGION", "sfo3");
      Some(StorageClient(
        DigitalOcean, region, "https://" + region + ".digitaloceanspaces.com",
        env["DO_SPACES_ACCESS_KEY_ID"], env["DO_SPACES_SECRET_ACCESS_KEY"],
        Some(EnvOr(env, "DO_SPACES_BUCKET_NAME", "my-movies"))))
    else if provider == Some("r2") && hasR2 then
      Some(StorageClient(
        R2, "auto", "https://" + EnvText(env, "R2_ACCOUNT_ID") + ".r2.cloudflarestorage.com",
        env["R2_ACCESS_KEY_ID"], env["R2_SECRET_ACCESS_KEY"],
        EnvGet(env, "R2_BUCKET_NAME")))
    else
      None
  }

  /** The provider name the handlers report: `'do'`, `'r2'` or null (`None`). */
  function ProviderName(client: Option<StorageClient>): (r: Option<string>)
    ensures r.None? <==> client.None?
    ensures r.Some? ==> r.value == "do" || r.value == "r2"
  {
    match client
    case None => None
    case Some(c) => Some(c.provider.Name())
  }

  datatype AvailableProviders = AvailableProviders(r2: bool, digitalOcean: bool)

  /** `getAvailableProviders()`: which providers have complete credentials. */
  function GetAvailableProviders(env: Env): (r: AvailableProviders)
    ensures r.r2 <==> GetStorageClient(Some("r2"), env).Some?
    ensures r.digitalOcean <==> GetStorageClient(Some("do"), env).Some?
  {
    AvailableProviders(HasR2(env), HasDO(env))
  }
}
