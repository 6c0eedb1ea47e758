/**
 * The exported loader of index.js: extract the environment into the
 * caller's configuration object, then go to the bucket only when
 * `config.CONFIG.BUCKET_NAME` exists. On the remote path the listing is
 * filtered to JSON files; with none the configuration is returned as it
 * is, otherwise those files are to be downloaded and merged (the download
 * and the merge are not part of this model; `Fetching` records what would
 * be fetched, with which storage options, over which configuration).
 */
module Loader {
  import opened Wrappers
  import opened ConfigTree
  import opened Environment
  import opened Bucket

  /** The options given to the storage client and the bucket to list. */
  datatype StorageOptions = StorageOptions(projectId: Option<Value>, keyFilename: Option<Value>, bucketName: Value)

  /** How a load ends. */
  datatype Resolution =
    | Resolved(config: Tree)
    | Rejected(error: LoadError)
    | Fetching(options: StorageOptions, files: seq<StorageObject>, config: Tree)

  /** `config.hasOwnProperty('CONFIG') && config.CONFIG.hasOwnProperty('BUCKET_NAME')`. */
  predicate NamesBucket(config: Tree) {
    "CONFIG" in config && "BUCKET_NAME" in config["CONFIG"]
  }

  /** `config.CONFIG[key] ? config.CONFIG[key] : null`. */
  function Setting(config: Tree, key: string): Option<Value>
    requires "CONFIG" in config
  {
    if key in config["CONFIG"] && Truthy(config["CONFIG"][key]) then Some(config["CONFIG"][key]) else None
  }

  /** The storage client options and the bucket name read from `config.CONFIG`. */
  function StorageOptionsOf(config: Tree): StorageOptions
    requires NamesBucket(config)
  {
    StorageOptions(Setting(config, "PROJECT_ID"), Setting(config, "KEY_FILENAME"), config["CONFIG"]["BUCKET_NAME"])
  }

  /**
   * What the loader does once the environment is extracted, case by case:
   * without a bucket name it returns the configuration as it is; with one,
   * a failed listing or a failed selection rejects with that error, an
   * empty JSON selection returns the configuration as it is, and a
   * non-empty one is fetched with the storage options read from `CONFIG`.
   * Only JSON files are ever fetched, and the configuration in the result
   * is always the one given.
   */
  function Settle(config: Tree, listing: Result<seq<seq<StorageObject>>, LoadError>): (r: Resolution)
    ensures r.Resolved? || r.Fetching? ==> r.config == config
    ensures !NamesBucket(config) ==> r == Resolved(config)
    ensures NamesBucket(config) && listing.Failure? ==> r == Rejected(listing.error)
    ensures NamesBucket(config) && listing.Success? && JsonFiles(listing.value).Failure?
            ==> r == Rejected(JsonFiles(listing.value).error)
    ensures NamesBucket(config) && listing.Success? && JsonFiles(listing.value) == Success([]) ==> r == Resolved(config)
    ensures NamesBucket(config) && listing.Success? && JsonFiles(listing.value).Success? && JsonFiles(listing.value).value != []
            ==> && r.Fetching? && r.files == JsonFiles(listing.value).value && r.config == config
                && r.options.bucketName == config["CONFIG"]["BUCKET_NAME"]
                && (r.options.projectId.Some? <==> "PROJECT_ID" in config["CONFIG"] && Truthy(config["CONFIG"]["PROJECT_ID"]))
                && (r.options.projectId.Some? ==> r.options.projectId.value == config["CONFIG"]["PROJECT_ID"])
                && (r.options.keyFilename.Some? <==> "KEY_FILENAME" in config["CONFIG"] && Truthy(config["CONFIG"]["KEY_FILENAME"]))
                && (r.options.keyFilename.Some? ==> r.options.keyFilename.value == config["CONFIG"]["KEY_FILENAME"])
    ensures r.Fetching? ==> NamesBucket(config) && r.files != [] && forall f :: f in r.files ==> IsJson(f)
    ensures r.Rejected? ==> NamesBucket(config) && (listing.Failure? || JsonFiles(listing.value).Failure?)
  {
    if !NamesBucket(config) then Resolved(config)
    else
      match listing
      case Failure(e) => Rejected(e)
      case Success(entries) =>
        match JsonFiles(entries)
        case Failure(e) => Rejected(e)
        case Success(files) =>
          if |files| > 0 then
            forall f | f in files ensures IsJson(f) { JsonFilesMembers(entries, f); }
            Fetching(StorageOptionsOf(config), files, config)
          else Resolved(config)
  }

  /**
   * After extraction a bucket is named exactly when the caller's object
   * named one or some variable writes `CONFIG_BUCKET_NAME`; a bucket the
   * caller's object names is never replaced by the environment.
   */
  lemma BucketAfterExtract(categories: seq<string>, env: seq<Variable>, init: Tree, decode: string -> string)
    ensures NamesBucket(Extract(categories, env, init, decode))
        <==> NamesBucket(init) || exists i :: 0 <= i < |env| && Target(categories, env[i].0) == Some(("CONFIG", "BUCKET_NAME"))
    ensures NamesBucket(init) ==> Extract(categories, env, init, decode)["CONFIG"]["BUCKET_NAME"] == init["CONFIG"]["BUCKET_NAME"]
  {
    ExtractGet(categories, env, init, decode, "CONFIG", "BUCKET_NAME");
    FirstValueSome(categories, env, "CONFIG", "BUCKET_NAME", decode);
  }

  /** `getFromCloudStorage`: read the storage options, then select the JSON files of the listing. */
  method GetFromCloudStorage(config: Tree, listing: Result<seq<seq<StorageObject>>, LoadError>)
    returns (r: Resolution)
    requires NamesBucket(config)
    ensures r == Settle(config, listing)
  {
    var options := StorageOptionsOf(config);
    match listing
    case Failure(e) =>
      r := Rejected(e);
    case Success(entries) =>
      var selected := SelectJsonFiles(entries);
      match selected
      case Failure(e) =>
        r := Rejected(e);
      case Success(filesToProcess) =>
        if |filesToProcess| > 0 {
          r := Fetching(options, filesToProcess, config);
        } else {
          r := Resolved(config);
        }
  }

  /**
   * The exported function: extract the environment into the caller's
   * object, then resolve locally or go to the bucket. The configuration
   * in the result is the caller's object as the extraction left it.
   */
  method Load(categories: seq<string>, env: seq<Variable>, config: ConfigObject, decode: string -> string,
              listing: Result<seq<seq<StorageObject>>, LoadError>)
    returns (r: Resolution)
    modifies config
    ensures config.entries == Extract(categories, env, old(config.entries), decode)
    ensures r == Settle(config.entries, listing)
  {
    ExtractEnvironment(categories, env, config, decode);
    if NamesBucket(config.entries) {
      r := GetFromCloudStorage(config.entries, listing);
    } else {
      r := Resolved(config.entries);
    }
  }
}
