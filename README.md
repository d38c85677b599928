# Workspace content service, modelled in Dafny

This project models the gRPC `WorkspaceService` of Gitpod's content service
(`components/content-service/pkg/service/workspace-service.go`). The service has two operations:

- `DownloadUrlWorkspace` signs a download URL for a workspace's regular backup.
- `DeleteWorkspace` deletes a workspace's backups. With `IncludeSnapshots` it issues one
  prefix delete over the whole workspace. Without it, it deletes the regular backup by name and
  then the `trail-` objects by prefix.

Both operations map storage errors the same way. The sentinel `ErrNotFound` becomes gRPC `NotFound`.
Any other error becomes `Unknown`. The message is always the error's text.

Modules:

- `Wrappers` (`wrappers.dfy`): `Option` for a nilable Go `error`, and `Result` for a `(resp, err)` pair.
- `Strings` (`strings.dfy`): Go's `strings.HasPrefix` and `strings.HasSuffix`.
- `Storage` (`storage.dfy`): the storage client the service is handed.
  - `Bucket`, `BackupObject`, `SignDownload` and the backend's answer to a delete are injected
    functions (const fields of `PresignedAccess`). Nothing is assumed about them, injectivity
    included.
  - The store is a map from bucket to the set of object names in it.
  - `DeleteObject` asks the backend for its answer: deleted, or failed with an error. A failed
    delete may already have removed some of the objects it targeted. Each call goes into a ghost
    log, so proofs can talk about which calls were issued and in what order.
- `Service` (`service.dfy`):
  - the status mapping and the prefix normalisation;
  - `DeleteRun`, the delete operation written as a pure state machine over the store;
  - the `WorkspaceService` class with the two operations. The method `DeleteWorkspace` is proved to
    issue exactly the calls of `DeleteRun` and to leave the store and answer it describes;
  - lemmas stating the properties of `DeleteRun`.

## Model

| member | source | states |
|---|---|---|
| `Service.ToStatus` | components/content-service/pkg/service/workspace-service.go:50-53 | The code is NotFound exactly when the error is the sentinel `ErrNotFound`, and Unknown otherwise. The message is the error's text. The same rule is repeated at lines 77-80, 87-90 and 97-100. |
| `Service.NormalizePrefix` | components/content-service/pkg/service/workspace-service.go:70-73 | The result ends with `/` and extends the raw prefix by at most one character. It equals the raw prefix exactly when that already ends with `/`, so otherwise it is raw + `/`. |
| `Service.NormalizePrefixIdempotent` | components/content-service/pkg/service/workspace-service.go:70-73 | Normalising twice gives the same prefix as normalising once. |
| `Service.UnderNormalizedPrefix` | components/content-service/pkg/service/workspace-service.go:70-73 | A name under the normalised prefix lies under the raw prefix too, and a `/` follows the raw prefix unless the raw prefix already ended with one. |
| `Service.SiblingRootsAreDisjoint` | components/content-service/pkg/service/workspace-service.go:70-74 | Two different non-empty, slash-free workspace ids under a common parent (such as `w1` and `w10`) have normalised prefixes that no object name starts with both of. |
| `Service.NormalizeRootWithSeparator` | components/content-service/pkg/service/workspace-service.go:71-72 | For a non-empty workspace id without `/`, the root parent + id and the root parent + id + `/` normalise to the same prefix, parent + id + `/`. |
| `Service.RawPrefixReachesSibling` | components/content-service/pkg/service/workspace-service.go:71-72 | For every parent path, slash-free workspace id and remainder not starting with `/`, the name parent + id + remainder lies under the raw prefix parent + id but not under its normalisation. So without lines 71-72, `w1` would reach the objects of `w10`. |
| `Service.DeleteRun` | components/content-service/pkg/service/workspace-service.go:69-104 | The delete operation as a state machine over the store. It gives the calls issued in order, the store after them and the answer. At most one call is issued with snapshots and at most two without. All calls go to `Bucket(OwnerId)`. Only the last call can have failed. The answer is success exactly when the last call returned nil, and otherwise it is the mapped status of that call's error. |
| `Service.SnapshotsIssueOnePrefixDelete` | components/content-service/pkg/service/workspace-service.go:69-81 | With snapshots, exactly one delete is issued. It is a prefix delete (never a name delete) in `Bucket(OwnerId)`, by the normalised `BackupObject(ws, "")`, which ends with `/`. |
| `Service.DefaultFailureStopsRun` | components/content-service/pkg/service/workspace-service.go:83-91 | Without snapshots, the first call is an exact-name delete of `BackupObject(ws, DefaultBackup)` in `Bucket(OwnerId)`. If it fails, no other call is issued and the mapped status of its error is returned. |
| `Service.TrailFollowsDefaultSuccess` | components/content-service/pkg/service/workspace-service.go:93-101 | Without snapshots, the trail delete is issued exactly when the name delete succeeded. It uses the raw, unnormalised prefix `BackupObject(ws, "trail-")`. If it fails, its mapped error is returned, and the regular backup stays deleted (no rollback). |
| `Service.SuccessIffEveryDeleteSucceeded` | components/content-service/pkg/service/workspace-service.go:69-104 | The empty success response is returned exactly when every issued delete returned nil. A failure carries the mapped status of the last issued call's error. |
| `Service.OnlyOwnerBucketChanges` | components/content-service/pkg/service/workspace-service.go:74-94 | Every delete targets `Bucket(OwnerId)`. Every other bucket is unchanged. The owner's bucket only loses objects that some issued query targets. |
| `Service.SnapshotsSuccessClearsPrefix` | components/content-service/pkg/service/workspace-service.go:69-81 | After a successful delete with snapshots, an object of the owner's bucket survives exactly when it is not under the normalised `BackupObject(ws, "")`. No condition is placed on `BackupObject`. |
| `Service.SingleBackupSuccessClears` | components/content-service/pkg/service/workspace-service.go:83-104 | After a successful delete without snapshots, an object of the owner's bucket survives exactly when it is neither `BackupObject(ws, DefaultBackup)` nor under the raw prefix `BackupObject(ws, "trail-")`. |
| `Service.SnapshotsDeleteKeepsSiblings` | components/content-service/pkg/service/workspace-service.go:69-81 | Whatever the outcome, a delete with snapshots keeps the objects of a sibling workspace root. This holds when the workspace root is a parent path followed by the workspace id, with or without a trailing `/`. |
| `Service.WorkspaceService.DownloadUrlWorkspace` | components/content-service/pkg/service/workspace-service.go:42-58 | Signs `BackupObject(ws, DefaultBackup)` in `Bucket(OwnerId)` with content type `*/*`. On success it returns the signed URL unchanged. On failure it returns no response and the mapped status: NotFound exactly for `ErrNotFound`, with the message being the error's text. |
| `Service.WorkspaceService.DeleteWorkspace` | components/content-service/pkg/service/workspace-service.go:62-105 | The calls it issues, in order, are those of `DeleteRun`, as are the resulting store and the returned response or status. |
| `Storage.AfterDelete` | components/content-service/pkg/service/workspace-service.go:74-94 | The store after one delete, as issued at lines 74, 84 and 94 (the effect itself belongs to the storage package). Only the call's bucket changes, and it only loses objects the query targets. A delete reported successful removes every targeted object. |
| `Storage.PresignedAccess.DeleteObject` | components/content-service/pkg/service/workspace-service.go:74-94 | Stands for the three call sites at lines 74, 84 and 94. Returns the backend's error, if any, and applies `AfterDelete`. It appends the call and its error to the log. |

## Left out

- Tracing spans and `tracing.FinishSpan` (lines 37-40, 63-67): observability only, with no effect on results.
- `log.Error` and `log.WithError` calls: logging only.
- `NewWorkspaceService` and `storage.NewPresignedAccess` (lines 27-33): configuration loading and construction of the backend client. The `WorkspaceService` constructor just takes a client.
- The `storage` package is not part of this model. So `Bucket`, `BackupObject`, `SignDownload` and the backend's *answer* to a delete are injected functions with no assumed properties. Key collision-freedom in particular is not assumed, because workspace-service.go does not ensure it.
- `Storage.AfterDelete`: the effect of a delete on the store is assumed, not taken from the storage package. It assumes three things. A delete touches only its own bucket. It removes only objects its query matches. A delete that returns nil removes every object it matches. `OnlyOwnerBucketChanges` and `SnapshotsDeleteKeepsSiblings` rely on the first two. `TrailFollowsDefaultSuccess` (the clause that the regular backup stays deleted), `SnapshotsSuccessClearsPrefix` and `SingleBackupSuccessClears` rely on all three.
- `Service.WorkspaceService.DownloadUrlWorkspace`: `SignDownload` is modelled as returning either a `DownloadInfo` or an error. This excludes a `(nil, nil)` return. The source would dereference that nil `info` at line 57 and panic, so the model assumes the storage package never returns it.
- Go strings are byte strings, and `strings.HasPrefix` and `strings.HasSuffix` compare bytes. The model compares sequences of characters. For valid UTF-8 the two agree. That includes the one-byte `/` and the bound `|p| <= |raw| + 1` in `NormalizePrefix`.
- `SiblingRootsAreDisjoint` and `SnapshotsDeleteKeepsSiblings` take as a hypothesis that the workspace root is a parent path followed by a non-empty workspace id without `/`, and that the sibling id is non-empty and without `/` as well. For `SnapshotsDeleteKeepsSiblings` the root may also end with `/`, in which case line 71 changes nothing. This names the shape under which the prefix normalisation separates sibling workspaces. It is not a claim about `BackupObject`. The success clause, `SnapshotsSuccessClearsPrefix`, needs no such hypothesis.
- `DEFAULT_BACKUP` (`"full.tar"`) and the text of `ErrNotFound` (`"not found"`) are constants of the storage package. No proved property depends on their values.
- `DeleteObjectQuery` is a Go struct with `Name` and `Prefix` fields. The service only ever sets one of them, so it is modelled as a choice between `ByName` and `ByPrefix`.
- `SignDownload` is read-only, so it is modelled as a function of the store and is not logged. Which key, bucket and options it gets is stated by the `DownloadUrlWorkspace` contract.
- `context.Context` propagation and cancellation, and concurrent requests: transport and concurrency concerns outside a sequential model.
- URL signing, expiry and credentials: specific to the backend, outside this model.
- gRPC `status` and `codes` construction: modelled as the two codes `NotFound` and `Unknown` plus a message.
