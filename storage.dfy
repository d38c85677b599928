/**
 * The object-storage collaborator as the service sees it (Go package `storage`,
 * interface `PresignedAccess`). Its implementations are not part of this model: bucket
 * naming, object naming, URL signing and the backend's answer to a delete are injected
 * functions about which nothing is assumed, in particular not injectivity.
 */
module Storage {
  import opened Wrappers
  import opened Strings

  /** Label of the regular backup of a workspace (`storage.DefaultBackup`). */
  const DEFAULT_BACKUP: string := "full.tar"

  /** Text of the sentinel `storage.ErrNotFound`. */
  const NOT_FOUND_TEXT: string := "not found"

  /**
   * A non-nil error returned by the storage client. Go compares errors by identity, so
   * only the sentinel is ErrNotFound; any other error, whatever its text, is OtherError.
   */
  datatype StorageError = ErrNotFound | OtherError(text: string) {

    /** What `err.Error()` returns. */
    function Text(): string {
      match this
      case ErrNotFound => NOT_FOUND_TEXT
      case OtherError(t) => t
    }
  }

  /** `storage.SignedURLOptions`. */
  datatype SignedURLOptions = SignedURLOptions(contentType: string)

  /** `storage.DownloadInfo`: what a successful SignDownload returns. */
  datatype DownloadInfo = DownloadInfo(url: string)

  /** `storage.DeleteObjectQuery`: delete one object by exact name, or every object under a prefix. */
  datatype DeleteObjectQuery = ByName(name: string) | ByPrefix(prefix: string)

  /** One DeleteObject call: the bucket it targets and its query. */
  datatype DeleteCall = DeleteCall(bucket: string, query: DeleteObjectQuery)

  /**
   * The backend's answer to a delete. A failed delete may already have removed some of
   * the objects it targeted (a best-effort prefix delete that stopped midway).
   */
  datatype Reply = Deleted | Failed(error: StorageError, removed: set<string>) {

    /** The `error` value DeleteObject returns for this answer. */
    function Err(): (e: Option<StorageError>)
      ensures e.None? <==> Deleted?
    {
      if Deleted? then None else Some(error)
    }
  }

  /** A DeleteObject call as it was issued, with the error it returned. */
  datatype Issued = Issued(call: DeleteCall, err: Option<StorageError>)

  /** The contents of the store: the object names held by each bucket. */
  type Objects = map<string, set<string>>

  /** The object names in one bucket; a bucket the store does not know is empty. */
  function Names(objects: Objects, bucket: string): set<string> {
    if bucket in objects then objects[bucket] else {}
  }

  /** Whether a delete query targets the object called name. */
  predicate Matches(query: DeleteObjectQuery, name: string) {
    match query
    case ByName(n) => name == n
    case ByPrefix(p) => HasPrefix(name, p)
  }

  /** The store after the backend answered call with reply. */
  function AfterDelete(objects: Objects, call: DeleteCall, reply: Reply): (after: Objects)
    ensures after.Keys == objects.Keys
    ensures forall b :: b != call.bucket ==> Names(after, b) == Names(objects, b)
    ensures Names(after, call.bucket) <= Names(objects, call.bucket)
    ensures forall n :: n in Names(objects, call.bucket) && n !in Names(after, call.bucket) ==>
              Matches(call.query, n)
    ensures reply.Deleted? ==>
              forall n :: n in Names(objects, call.bucket) ==>
                (n in Names(after, call.bucket) <==> !Matches(call.query, n))
  {
    var names := Names(objects, call.bucket);
    var targeted := set n | n in names && Matches(call.query, n);
    var gone := if reply.Deleted? then targeted else reply.removed * targeted;
    if call.bucket in objects then objects[call.bucket := names - gone] else objects
  }

  /**
   * The storage client: the functions the service calls, and the store it changes.
   * Only DeleteObject changes state; it appends every call to the ghost log.
   */
  class PresignedAccess {
    /** `Bucket(ownerId)`: the bucket that holds an owner's content. */
    const bucket: string -> string
    /** `BackupObject(workspaceId, label)`: the object name or prefix for a label. */
    const backupObject: (string, string) -> string
    /** `SignDownload(bucket, name, options)` against the current store. */
    const signDownload: (Objects, string, string, SignedURLOptions) -> Result<DownloadInfo, StorageError>
    /** The backend's answer to a delete call against the current store. */
    const backend: (Objects, DeleteCall) -> Reply

    var objects: Objects
    ghost var log: seq<Issued>

    constructor (
      bucket: string -> string,
      backupObject: (string, string) -> string,
      signDownload: (Objects, string, string, SignedURLOptions) -> Result<DownloadInfo, StorageError>,
      backend: (Objects, DeleteCall) -> Reply,
      objects: Objects)
      ensures this.bucket == bucket && this.backupObject == backupObject
      ensures this.signDownload == signDownload && this.backend == backend
      ensures this.objects == objects && log == []
    {
      this.bucket := bucket;
      this.backupObject := backupObject;
      this.signDownload := signDownload;
      this.backend := backend;
      this.objects := objects;
      log := [];
    }

    /** `DeleteObject(ctx, bucket, query)`: the backend decides the outcome. */
    method DeleteObject(bucket: string, query: DeleteObjectQuery) returns (err: Option<StorageError>)
      modifies this
      ensures var call := DeleteCall(bucket, query);
              var reply := backend(old(objects), call);
              && err == reply.Err()
              && objects == AfterDelete(old(objects), call, reply)
              && log == old(log) + [Issued(call, err)]
    {
      var call := DeleteCall(bucket, query);
      var reply := backend(objects, call);
      objects := AfterDelete(objects, call, reply);
      err := reply.Err();
      log := log + [Issued(call, err)];
    }
  }
}
