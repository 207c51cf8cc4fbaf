/**
 * Object storage: how the COS and MinIO backends read their settings, the
 * object keys and download URLs they build, and which backend a
 * configuration selects. The storage clients themselves are outside the
 * model; whether building a client and an upload succeed is passed in.
 */
module Storage {
  import opened Wrappers
  import opened PyStr

  /** A settings dictionary or the process environment: missing keys read as None. */
  type Settings = map<string, string>

  function Get(m: Settings, key: string): Option<string> {
    if key in m then Some(m[key]) else None
  }

  /** `bool(v)` for a value that may be None. */
  predicate Truthy(v: Option<string>) {
    v.Some? && v.value != ""
  }

  /** `f"{v}"`: None renders as "None". */
  function Show(v: Option<string>): string {
    if v.Some? then v.value else "None"
  }

  /** The storage configuration passed in, or None; an empty dictionary is falsy too. */
  predicate Given(config: Option<Settings>) {
    config.Some? && |config.value| > 0
  }

  // Tencent COS.

  /**
   * What `_init_cos_client` returns: no client (every field None), or a
   * client with its bucket, region and prefix, the prefix possibly None.
   */
  datatype CosState = NoCos | CosClient(bucketName: string, region: string, prefix: Option<string>)

  /**
   * `_init_cos_client`: the injected configuration is read unless its access
   * key is ""; otherwise the COS_* environment variables are. Any of the five
   * required values missing or empty leaves every field None, as does a
   * client constructor that raises (`clientBuilds` false).
   */
  function InitCos(config: Option<Settings>, env: Settings, clientBuilds: bool): (st: CosState)
    ensures st.CosClient? ==> st.bucketName != "" && st.region != ""
  {
    var useConfig := Given(config) && Get(config.value, "access_key_id") != Some("");
    var secretId := if useConfig then Get(config.value, "access_key_id") else Get(env, "COS_SECRET_ID");
    var secretKey := if useConfig then Get(config.value, "secret_access_key") else Get(env, "COS_SECRET_KEY");
    var region := if useConfig then Get(config.value, "region") else Get(env, "COS_REGION");
    var bucket := if useConfig then Get(config.value, "bucket_name") else Get(env, "COS_BUCKET_NAME");
    var appId := if useConfig then Get(config.value, "app_id") else Get(env, "COS_APP_ID");
    var prefix := if useConfig then Some(Get(config.value, "path_prefix").GetOr("")) else Get(env, "COS_PATH_PREFIX");
    if !(Truthy(secretId) && Truthy(secretKey) && Truthy(region) && Truthy(bucket) && Truthy(appId)) then NoCos
    else if !clientBuilds then NoCos
    else CosClient(bucket.value, region.value, prefix)
  }

  /** The injected configuration is consulted exactly when it is given and its access key is not "". */
  lemma CosConfigSource(config: Settings, env: Settings, clientBuilds: bool)
    requires |config| > 0 && Get(config, "access_key_id") != Some("")
    requires clientBuilds
    ensures var st := InitCos(Some(config), env, clientBuilds);
      st.CosClient? <==> (Truthy(Get(config, "access_key_id")) && Truthy(Get(config, "secret_access_key")) &&
                      Truthy(Get(config, "region")) && Truthy(Get(config, "bucket_name")) &&
                      Truthy(Get(config, "app_id")))
    ensures var st := InitCos(Some(config), env, clientBuilds);
      st.CosClient? ==>
        Some(st.bucketName) == Get(config, "bucket_name") && Some(st.region) == Get(config, "region") &&
        st.prefix == Some(Get(config, "path_prefix").GetOr(""))
  {
  }

  /** `CosStorage._get_download_url`. */
  function CosUrl(bucket: string, region: string, key: string): (url: string)
    ensures StartsWith(url, "https://" + bucket + ".cos.")
  {
    "https://" + bucket + ".cos." + region + ".myqcloud.com/" + key
  }

  /** From one bucket and region, different keys give different URLs. */
  lemma CosUrlInjective(bucket: string, region: string, k1: string, k2: string)
    requires CosUrl(bucket, region, k1) == CosUrl(bucket, region, k2)
    ensures k1 == k2
  {
    var p := "https://" + bucket + ".cos." + region + ".myqcloud.com/";
    assert CosUrl(bucket, region, k1) == p + k1;
    assert CosUrl(bucket, region, k2) == p + k2;
    assert k1 == (p + k1)[|p|..];
    assert k2 == (p + k2)[|p|..];
  }

  /** The key `CosStorage.upload_file` writes: always under the prefix, even an empty or unset one. */
  function CosFileKey(prefix: Option<string>, hexId: string, filePath: string): string {
    Show(prefix) + "/images/" + hexId + SplitExt(Basename(filePath)).1
  }

  /** The key `upload_bytes` writes (COS and MinIO alike): under the prefix only when it is truthy. */
  function BytesKey(prefix: Option<string>, hexId: string, fileExt: string): string {
    if Truthy(prefix) then prefix.value + "/images/" + hexId + fileExt else "images/" + hexId + fileExt
  }

  /** `s` ends with `t`. */
  predicate EndsWith(s: string, t: string) {
    |t| <= |s| && s[|s| - |t|..] == t
  }

  lemma EndsWithAppend(a: string, t: string)
    ensures EndsWith(a + t, t)
  {
    assert (a + t)[|a|..] == t;
  }

  /**
   * `CosStorage.upload_file`: "" without a client or when the client call
   * raises (`uploaded` false), otherwise a URL on the bucket's COS host that
   * ends with the object key.
   */
  function CosUploadFile(st: CosState, hexId: string, filePath: string, uploaded: bool): (url: string)
    ensures st.NoCos? || !uploaded ==> url == ""
    ensures st.CosClient? && uploaded ==>
      StartsWith(url, "https://" + st.bucketName + ".cos.") &&
      EndsWith(url, ".myqcloud.com/" + CosFileKey(st.prefix, hexId, filePath))
  {
    if st.NoCos? then ""
    else if !uploaded then ""
    else
      CosUrlEnds(st.bucketName, st.region, CosFileKey(st.prefix, hexId, filePath));
      CosUrl(st.bucketName, st.region, CosFileKey(st.prefix, hexId, filePath))
  }

  /** `CosStorage.upload_bytes`, with the key `BytesKey` builds. */
  function CosUploadBytes(st: CosState, hexId: string, fileExt: string, uploaded: bool): (url: string)
    ensures st.NoCos? || !uploaded ==> url == ""
    ensures st.CosClient? && uploaded ==>
      StartsWith(url, "https://" + st.bucketName + ".cos.") &&
      EndsWith(url, ".myqcloud.com/" + BytesKey(st.prefix, hexId, fileExt))
  {
    if st.NoCos? then ""
    else if !uploaded then ""
    else
      CosUrlEnds(st.bucketName, st.region, BytesKey(st.prefix, hexId, fileExt));
      CosUrl(st.bucketName, st.region, BytesKey(st.prefix, hexId, fileExt))
  }

  lemma CosUrlEnds(bucket: string, region: string, key: string)
    ensures EndsWith(CosUrl(bucket, region, key), ".myqcloud.com/" + key)
  {
    var head := "https://" + bucket + ".cos." + region;
    assert CosUrl(bucket, region, key) == head + (".myqcloud.com/" + key);
    EndsWithAppend(head, ".myqcloud.com/" + key);
  }

  /**
   * The two COS uploads disagree on an empty prefix: `upload_file` writes a
   * key starting with "/" while `upload_bytes` writes one starting with
   * "images/"; with an unset prefix the file key starts with "None/".
   */
  lemma CosKeysDisagree(hexId: string, filePath: string, fileExt: string)
    ensures CosFileKey(Some(""), hexId, filePath)[0] == '/'
    ensures StartsWith(BytesKey(Some(""), hexId, fileExt), "images/")
    ensures StartsWith(CosFileKey(None, hexId, filePath), "None/images/")
    ensures StartsWith(BytesKey(None, hexId, fileExt), "images/")
  {
    var ext := SplitExt(Basename(filePath)).1;
    assert CosFileKey(None, hexId, filePath) == "None/images/" + (hexId + ext);
    assert BytesKey(Some(""), hexId, fileExt) == "images/" + (hexId + fileExt);
    assert BytesKey(None, hexId, fileExt) == "images/" + (hexId + fileExt);
  }

  /**
   * The extension of an uploaded file's key comes from the file's own name:
   * directories in the path, dotted or not, do not contribute.
   */
  lemma FileKeyExtension(prefix: Option<string>, hexId: string, dir: string, name: string)
    requires '/' !in name
    ensures CosFileKey(prefix, hexId, dir + "/" + name) == CosFileKey(prefix, hexId, name)
  {
    BasenameOfJoin(dir, name);
  }

  lemma BasenameOfJoin(dir: string, name: string)
    requires '/' !in name
    ensures Basename(dir + "/" + name) == name
    ensures Basename(name) == name
  {
    var p := dir + "/" + name;
    assert p[|dir|] == '/';
    assert forall k :: |dir| < k < |p| ==> p[k] == name[k - |dir| - 1];
    assert RFind(p, '/') == |dir|;
    assert p[|dir| + 1..] == name;
  }

  // MinIO.

  /** What `_init_minio_client` returns: no client, or a client with its settings. */
  datatype MinioState = NoMinio | MinioClient(bucketName: string, useSsl: bool, endpoint: string, pathPrefix: string)

  /** `s.strip().strip("/")`. */
  function NormalisePrefix(s: string): (r: string)
    ensures r == [] || (r[0] != '/' && r[|r| - 1] != '/')
  {
    StripChar(Strip(s), '/')
  }

  /**
   * `_init_minio_client`: the injected configuration is read when it has a
   * truthy bucket name, otherwise the MINIO_* environment variables; the
   * endpoint always comes from the environment. An injected configuration
   * without a path prefix makes `.strip()` raise, which gives the all-None
   * result, as does missing endpoint, key, secret or bucket, or a failing
   * client (`clientBuilds` false).
   */
  function InitMinio(config: Option<Settings>, env: Settings, clientBuilds: bool): (st: MinioState)
    ensures st.MinioClient? ==> st.bucketName != "" && st.endpoint != ""
  {
    var endpoint := Get(env, "MINIO_ENDPOINT");
    var useSsl := Lower(Get(env, "MINIO_USE_SSL").GetOr("false")) == "true";
    var useConfig := Given(config) && Truthy(Get(config.value, "bucket_name"));
    if useConfig && Get(config.value, "path_prefix").None? then NoMinio
    else
      var bucket := if useConfig then Get(config.value, "bucket_name") else Get(env, "MINIO_BUCKET_NAME");
      var prefix := if useConfig then NormalisePrefix(config.value["path_prefix"])
                    else NormalisePrefix(Get(env, "MINIO_PATH_PREFIX").GetOr(""));
      var accessKey := if useConfig then Get(config.value, "access_key_id") else Get(env, "MINIO_ACCESS_KEY_ID");
      var secretKey := if useConfig then Get(config.value, "secret_access_key") else Get(env, "MINIO_SECRET_ACCESS_KEY");
      if !(Truthy(endpoint) && Truthy(accessKey) && Truthy(secretKey) && Truthy(bucket)) then NoMinio
      else if !clientBuilds then NoMinio
      else MinioClient(bucket.value, useSsl, endpoint.value, prefix)
  }

  /** A prefix kept by the MinIO backend neither starts nor ends with "/". */
  lemma MinioPrefixNormalised(config: Option<Settings>, env: Settings, clientBuilds: bool)
    ensures var st := InitMinio(config, env, clientBuilds);
      st.MinioClient? ==> var p := st.pathPrefix; p == [] || (p[0] != '/' && p[|p| - 1] != '/')
  {
  }

  /** `MinioStorage._get_download_url`: path-style, on the public endpoint when one is set. */
  function MinioUrl(bucket: string, key: string, useSsl: bool, endpoint: string, publicEndpoint: Option<string>): string {
    var base := if Truthy(publicEndpoint) then publicEndpoint.value
                else (if useSsl then "https" else "http") + "://" + endpoint;
    base + "/" + bucket + "/" + key
  }

  /**
   * The MinIO URL ends with "/bucket/key"; without a public endpoint it
   * starts with the scheme `use_ssl` selects followed by the endpoint.
   */
  lemma MinioUrlShape(bucket: string, key: string, useSsl: bool, endpoint: string, publicEndpoint: Option<string>)
    ensures var url := MinioUrl(bucket, key, useSsl, endpoint, publicEndpoint);
      var tail := "/" + bucket + "/" + key;
      EndsWith(url, tail) &&
      (Truthy(publicEndpoint) ==> url == publicEndpoint.value + tail) &&
      (!Truthy(publicEndpoint) && useSsl ==> StartsWith(url, "https://" + endpoint + "/")) &&
      (!Truthy(publicEndpoint) && !useSsl ==> StartsWith(url, "http://" + endpoint + "/"))
  {
    var tail := "/" + bucket + "/" + key;
    var base := if Truthy(publicEndpoint) then publicEndpoint.value
                else (if useSsl then "https" else "http") + "://" + endpoint;
    assert MinioUrl(bucket, key, useSsl, endpoint, publicEndpoint) == base + tail;
    if !Truthy(publicEndpoint) {
      var scheme := if useSsl then "https" else "http";
      assert base + tail == (scheme + "://" + endpoint + "/") + (bucket + "/" + key);
    }
  }

  /** The key MinIO's `upload_file` writes: like `upload_bytes`, with the file's own extension. */
  function MinioFileKey(prefix: Option<string>, hexId: string, filePath: string): string {
    BytesKey(prefix, hexId, SplitExt(Basename(filePath)).1)
  }

  /**
   * `MinioStorage.upload_file`: "" without a client or when the upload
   * raises, otherwise a path-style URL ending with "/bucket/key".
   */
  function MinioUploadFile(st: MinioState, hexId: string, filePath: string, publicEndpoint: Option<string>,
                           uploaded: bool): (url: string)
    ensures st.NoMinio? || !uploaded ==> url == ""
    ensures st.MinioClient? && uploaded ==>
      EndsWith(url, "/" + st.bucketName + "/" + MinioFileKey(Some(st.pathPrefix), hexId, filePath))
  {
    if st.NoMinio? then ""
    else if !uploaded then ""
    else
      var key := MinioFileKey(Some(st.pathPrefix), hexId, filePath);
      MinioUrlShape(st.bucketName, key, st.useSsl, st.endpoint, publicEndpoint);
      MinioUrl(st.bucketName, key, st.useSsl, st.endpoint, publicEndpoint)
  }

  /** `MinioStorage.upload_bytes`, with the key `BytesKey` builds. */
  function MinioUploadBytes(st: MinioState, hexId: string, fileExt: string, publicEndpoint: Option<string>,
                            uploaded: bool): (url: string)
    ensures st.NoMinio? || !uploaded ==> url == ""
    ensures st.MinioClient? && uploaded ==>
      EndsWith(url, "/" + st.bucketName + "/" + BytesKey(Some(st.pathPrefix), hexId, fileExt))
  {
    if st.NoMinio? then ""
    else if !uploaded then ""
    else
      var key := BytesKey(Some(st.pathPrefix), hexId, fileExt);
      MinioUrlShape(st.bucketName, key, st.useSsl, st.endpoint, publicEndpoint);
      MinioUrl(st.bucketName, key, st.useSsl, st.endpoint, publicEndpoint)
  }

  /**
   * Keys from different ids of the same length are different, so the uuid
   * alone keeps uploads from overwriting each other; and a MinIO key never
   * starts with "/".
   */
  lemma BytesKeyDistinct(prefix: Option<string>, id1: string, id2: string, ext: string)
    requires |id1| == |id2| && id1 != id2
    ensures BytesKey(prefix, id1, ext) != BytesKey(prefix, id2, ext)
  {
    var head := if Truthy(prefix) then prefix.value + "/images/" else "images/";
    assert BytesKey(prefix, id1, ext) == head + id1 + ext;
    assert BytesKey(prefix, id2, ext) == head + id2 + ext;
    assert (head + id1 + ext)[|head|..|head| + |id1|] == id1;
    assert (head + id2 + ext)[|head|..|head| + |id2|] == id2;
  }

  lemma MinioKeyRelative(config: Option<Settings>, env: Settings, clientBuilds: bool, hexId: string, fileExt: string)
    requires InitMinio(config, env, clientBuilds).MinioClient?
    ensures BytesKey(Some(InitMinio(config, env, clientBuilds).pathPrefix), hexId, fileExt)[0] != '/'
  {
    var p := InitMinio(config, env, clientBuilds).pathPrefix;
    if p != "" {
      assert BytesKey(Some(p), hexId, fileExt)[0] == p[0];
    }
  }

  // Backend selection.

  datatype Backend = Cos(cos: CosState) | Minio(minio: MinioState)

  /** The backend name `create_storage` compares: the configuration's provider, else STORAGE_TYPE, else "cos". */
  function StorageType(config: Option<Settings>, env: Settings): string {
    var fromEnv := Lower(Get(env, "STORAGE_TYPE").GetOr("cos"));
    if Given(config) then Lower(Get(config.value, "provider").GetOr(fromEnv)) else fromEnv
  }

  /** `create_storage`: "minio" and "cos" (in any case) select a backend, anything else none. */
  function CreateStorage(config: Option<Settings>, env: Settings, clientBuilds: bool): (b: Option<Backend>)
    ensures b.Some? <==> StorageType(config, env) in {"minio", "cos"}
    ensures StorageType(config, env) == "minio" ==> b == Some(Minio(InitMinio(config, env, clientBuilds)))
    ensures StorageType(config, env) == "cos" ==> b == Some(Cos(InitCos(config, env, clientBuilds)))
  {
    var t := StorageType(config, env);
    if t == "minio" then Some(Minio(InitMinio(config, env, clientBuilds)))
    else if t == "cos" then Some(Cos(InitCos(config, env, clientBuilds)))
    else None
  }

  /** A provider in the configuration wins over the environment, whatever its case. */
  lemma ProviderOverridesEnvironment(config: Settings, env: Settings)
    requires |config| > 0 && "provider" in config
    ensures StorageType(Some(config), env) == Lower(config["provider"])
    ensures forall env2: Settings :: StorageType(Some(config), env2) == StorageType(Some(config), env)
  {
  }
}
