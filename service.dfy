/**
 * The workspace content service (`WorkspaceService` in
 * components/content-service/pkg/service/workspace-service.go): issuing a download URL
 * for a workspace's backup, and deleting a workspace's backups, over the storage client.
 */
module Service {
  import opened Wrappers
  import opened Strings
  import opened Storage

  /** The path separator that ends a directory-like prefix. */
  const SEPARATOR: string := "/"

  /** Label whose object name is the prefix of a backup's trail objects. */
  const TRAIL_LABEL: string := "trail-"

  /** Content type asked for when signing a download: the backup's own type is not known. */
  const ANY_CONTENT_TYPE: string := "*/*"

  /** The two gRPC status codes the service produces. */
  datatype Code = NotFound | Unknown

  /** A gRPC status error: its code and its message. */
  datatype Status = Status(code: Code, message: string)

  datatype DownloadUrlWorkspaceRequest = DownloadUrlWorkspaceRequest(ownerId: string, workspaceId: string)

  datatype DownloadUrlWorkspaceResponse = DownloadUrlWorkspaceResponse(url: string)

  datatype DeleteWorkspaceRequest = DeleteWorkspaceRequest(ownerId: string, workspaceId: string, includeSnapshots: bool)

  /** The empty success response of DeleteWorkspace. */
  datatype DeleteWorkspaceResponse = DeleteWorkspaceResponse

  /**
   * The rule every storage failure goes through: the sentinel not-found error becomes
   * NotFound, every other error Unknown, and the message is the error's text.
   */
  function ToStatus(err: StorageError): (st: Status)
    ensures st.code == NotFound <==> err == ErrNotFound
    ensures st.message == err.Text()
  {
    if err == ErrNotFound then Status(NotFound, err.Text()) else Status(Unknown, err.Text())
  }

  /**
   * The prefix of the include-snapshots delete: the raw prefix with a separator appended
   * unless it already ends with one. The result is the shortest extension of raw that
   * ends with the separator.
   */
  function NormalizePrefix(raw: string): (p: string)
    ensures HasSuffix(p, SEPARATOR)
    ensures HasPrefix(p, raw) && |p| <= |raw| + 1
    ensures p == raw <==> HasSuffix(raw, SEPARATOR)
  {
    if !HasSuffix(raw, SEPARATOR) then raw + SEPARATOR else raw
  }

  lemma NormalizePrefixIdempotent(raw: string)
    ensures NormalizePrefix(NormalizePrefix(raw)) == NormalizePrefix(raw)
  {
  }

  /**
   * A name under a normalised prefix lies under the raw prefix, at a separator boundary:
   * either raw already ended with the separator, or the separator follows raw in the name.
   */
  lemma UnderNormalizedPrefix(raw: string, name: string)
    requires HasPrefix(name, NormalizePrefix(raw))
    ensures HasPrefix(name, raw)
    ensures HasSuffix(raw, SEPARATOR) || name[|raw|] == '/'
  {
    if !HasSuffix(raw, SEPARATOR) {
      assert name[..|raw| + 1] == raw + SEPARATOR;
      assert name[..|raw|] == (raw + SEPARATOR)[..|raw|] == raw;
      assert name[|raw|] == (raw + SEPARATOR)[|raw|];
    }
  }

  /** A slash-free root and the same root with its separator normalise to the same prefix. */
  lemma NormalizeRootWithSeparator(parent: string, id: string)
    requires id != "" && '/' !in id
    ensures NormalizePrefix(parent + id + SEPARATOR) == NormalizePrefix(parent + id) == parent + id + SEPARATOR
  {
    assert (parent + id)[|parent + id| - 1] == id[|id| - 1];
  }

  /**
   * Workspace roots that differ in their last path segment share no object under their
   * normalised prefixes: "w1" and "w10" under a common parent cannot reach each other's objects.
   */
  lemma SiblingRootsAreDisjoint(parent: string, id1: string, id2: string, name: string)
    requires id1 != "" && id2 != "" && id1 != id2
    requires '/' !in id1 && '/' !in id2
    ensures !(HasPrefix(name, NormalizePrefix(parent + id1)) && HasPrefix(name, NormalizePrefix(parent + id2)))
  {
    var p1, p2 := NormalizePrefix(parent + id1), NormalizePrefix(parent + id2);
    assert (parent + id1)[|parent + id1| - 1] == id1[|id1| - 1];
    assert (parent + id2)[|parent + id2| - 1] == id2[|id2| - 1];
    assert p1 == parent + id1 + SEPARATOR;
    assert p2 == parent + id2 + SEPARATOR;
    if HasPrefix(name, p1) && HasPrefix(name, p2) {
      if |p1| <= |p2| {
        CommonPrefixes(name, p1, p2);
        SegmentsDiffer(parent, id1, id2, p1, p2);
      } else {
        CommonPrefixes(name, p2, p1);
        SegmentsDiffer(parent, id2, id1, p2, p1);
      }
    }
  }

  /** The segment step of SiblingRootsAreDisjoint: parent + id1 + "/" cannot begin parent + id2 + "/". */
  lemma SegmentsDiffer(parent: string, id1: string, id2: string, p1: string, p2: string)
    requires id1 != id2 && '/' !in id1 && '/' !in id2
    requires p1 == parent + id1 + SEPARATOR && p2 == parent + id2 + SEPARATOR
    ensures !HasPrefix(p2, p1)
  {
    if |id1| < |id2| {
      // p1 has the separator where p2 still has a character of id2
      var k := |parent| + |id1|;
      assert p1[k] == '/' && p2[k] == id2[|id1|];
      assert p2[..|p1|][k] != p1[k];
    } else if |id1| == |id2| {
      var j :| 0 <= j < |id1| && id1[j] != id2[j];
      assert p2[..|p1|][|parent| + j] != p1[|parent| + j];
    }
  }

  /**
   * Without normalisation the prefix of a workspace root would also reach the objects of
   * every root that extends it without a separator ("w1" reaching "w10/full.tar"); the
   * normalised prefix does not.
   */
  lemma RawPrefixReachesSibling(parent: string, id: string, rest: string)
    requires id != "" && '/' !in id
    requires rest != "" && rest[0] != '/'
    ensures HasPrefix(parent + id + rest, parent + id)
    ensures !HasPrefix(parent + id + rest, NormalizePrefix(parent + id))
  {
    var root, name := parent + id, parent + id + rest;
    assert root[|root| - 1] == id[|id| - 1];
    assert NormalizePrefix(root) == root + SEPARATOR;
    assert name[..|root|] == root;
    assert name[..|root| + 1][|root|] == rest[0] != NormalizePrefix(root)[|root|];
  }

  /** The object name of a workspace's regular backup. */
  function DefaultBackupName(s: PresignedAccess, workspaceId: string): string {
    s.backupObject(workspaceId, DEFAULT_BACKUP)
  }

  /** The prefix of every object of a workspace, normalised. */
  function SnapshotsPrefix(s: PresignedAccess, workspaceId: string): string {
    NormalizePrefix(s.backupObject(workspaceId, ""))
  }

  /** The prefix of a workspace's trail objects, not normalised. */
  function TrailPrefix(s: PresignedAccess, workspaceId: string): string {
    s.backupObject(workspaceId, TRAIL_LABEL)
  }

  /** What DeleteWorkspace did: the calls it issued in order, the store after them, and its answer. */
  datatype Run = Run(issued: seq<Issued>, objects: Objects, result: Result<DeleteWorkspaceResponse, Status>)

  /** Outcome of one step whose error aborts the operation. */
  function Respond(err: Option<StorageError>): Result<DeleteWorkspaceResponse, Status> {
    if err.Some? then Failure(ToStatus(err.value)) else Success(DeleteWorkspaceResponse)
  }

  /**
   * DeleteWorkspace as a state machine over the store. With snapshots: one prefix delete.
   * Without: delete the regular backup by name; only if that succeeded, delete the trail
   * prefix. The first failure ends the run; nothing is rolled back.
   */
  function DeleteRun(s: PresignedAccess, objects: Objects, req: DeleteWorkspaceRequest): (run: Run)
    ensures 1 <= |run.issued| <= (if req.includeSnapshots then 1 else 2)
    ensures forall i :: 0 <= i < |run.issued| ==> run.issued[i].call.bucket == s.bucket(req.ownerId)
    ensures forall i :: 0 <= i < |run.issued| - 1 ==> run.issued[i].err.None?
    ensures run.result.Success? <==> run.issued[|run.issued| - 1].err.None?
    ensures run.result.Failure? ==> run.result.error == ToStatus(run.issued[|run.issued| - 1].err.value)
  {
    var bucket := s.bucket(req.ownerId);
    if req.includeSnapshots then
      var call := DeleteCall(bucket, ByPrefix(SnapshotsPrefix(s, req.workspaceId)));
      var reply := s.backend(objects, call);
      Run([Issued(call, reply.Err())], AfterDelete(objects, call, reply), Respond(reply.Err()))
    else
      var first := DeleteCall(bucket, ByName(DefaultBackupName(s, req.workspaceId)));
      var reply1 := s.backend(objects, first);
      var after1 := AfterDelete(objects, first, reply1);
      if reply1.Failed? then
        Run([Issued(first, reply1.Err())], after1, Respond(reply1.Err()))
      else
        var second := DeleteCall(bucket, ByPrefix(TrailPrefix(s, req.workspaceId)));
        var reply2 := s.backend(after1, second);
        Run([Issued(first, None), Issued(second, reply2.Err())],
            AfterDelete(after1, second, reply2), Respond(reply2.Err()))
  }

  /** With snapshots, exactly one delete is issued: by the normalised workspace prefix, in the owner's bucket. */
  lemma SnapshotsIssueOnePrefixDelete(s: PresignedAccess, objects: Objects, req: DeleteWorkspaceRequest)
    requires req.includeSnapshots
    ensures var run := DeleteRun(s, objects, req);
            && |run.issued| == 1
            && run.issued[0].call == DeleteCall(s.bucket(req.ownerId), ByPrefix(NormalizePrefix(s.backupObject(req.workspaceId, ""))))
            && HasSuffix(run.issued[0].call.query.prefix, SEPARATOR)
            && !run.issued[0].call.query.ByName?
  {
  }

  /** Without snapshots, the first call deletes the regular backup by exact name; if it fails, nothing else is issued. */
  lemma DefaultFailureStopsRun(s: PresignedAccess, objects: Objects, req: DeleteWorkspaceRequest)
    requires !req.includeSnapshots
    ensures var run := DeleteRun(s, objects, req);
            && 1 <= |run.issued|
            && run.issued[0].call == DeleteCall(s.bucket(req.ownerId), ByName(s.backupObject(req.workspaceId, DEFAULT_BACKUP)))
            && (run.issued[0].err.Some? ==>
                  |run.issued| == 1 && run.result == Failure(ToStatus(run.issued[0].err.value)))
  {
  }

  /**
   * Without snapshots, the trail delete is issued exactly when the regular backup's delete
   * succeeded, by the raw trail prefix. If it then fails, its error is returned and the
   * regular backup, which the backend reported deleted, stays deleted.
   */
  lemma TrailFollowsDefaultSuccess(s: PresignedAccess, objects: Objects, req: DeleteWorkspaceRequest)
    requires !req.includeSnapshots
    ensures var run := DeleteRun(s, objects, req);
            && (|run.issued| == 2 <==> run.issued[0].err.None?)
            && (|run.issued| == 2 ==>
                  && run.issued[1].call == DeleteCall(s.bucket(req.ownerId), ByPrefix(s.backupObject(req.workspaceId, TRAIL_LABEL)))
                  && s.backupObject(req.workspaceId, DEFAULT_BACKUP) !in Names(run.objects, s.bucket(req.ownerId))
                  && (run.issued[1].err.Some? ==> run.result == Failure(ToStatus(run.issued[1].err.value))))
  {
  }

  /** DeleteWorkspace succeeds with the empty response exactly when every delete it issued returned nil. */
  lemma SuccessIffEveryDeleteSucceeded(s: PresignedAccess, objects: Objects, req: DeleteWorkspaceRequest)
    ensures var run := DeleteRun(s, objects, req);
            && (run.result == Success(DeleteWorkspaceResponse) <==> forall i :: 0 <= i < |run.issued| ==> run.issued[i].err.None?)
            && (run.result.Failure? ==>
                  run.issued[|run.issued| - 1].err.Some? &&
                  run.result.error == ToStatus(run.issued[|run.issued| - 1].err.value))
  {
  }

  /**
   * Every delete targets the owner's bucket; other buckets are left as they were, and the
   * owner's bucket only loses objects that one of the issued queries targets.
   */
  lemma OnlyOwnerBucketChanges(s: PresignedAccess, objects: Objects, req: DeleteWorkspaceRequest)
    ensures var run := DeleteRun(s, objects, req);
            var bucket := s.bucket(req.ownerId);
            && (forall i :: 0 <= i < |run.issued| ==> run.issued[i].call.bucket == bucket)
            && run.objects.Keys == objects.Keys
            && (forall b :: b != bucket ==> Names(run.objects, b) == Names(objects, b))
            && Names(run.objects, bucket) <= Names(objects, bucket)
            && (forall n :: n in Names(objects, bucket) && n !in Names(run.objects, bucket) ==>
                  exists i :: 0 <= i < |run.issued| && Matches(run.issued[i].call.query, n))
  {
    var run := DeleteRun(s, objects, req);
    var bucket := s.bucket(req.ownerId);
    if !req.includeSnapshots && |run.issued| == 2 {
      var first := run.issued[0].call;
      var after1 := AfterDelete(objects, first, s.backend(objects, first));
      forall n | n in Names(objects, bucket) && n !in Names(run.objects, bucket)
        ensures exists i :: 0 <= i < |run.issued| && Matches(run.issued[i].call.query, n)
      {
        if n in Names(after1, bucket) {
          assert Matches(run.issued[1].call.query, n);
        } else {
          assert Matches(run.issued[0].call.query, n);
        }
      }
    } else {
      forall n | n in Names(objects, bucket) && n !in Names(run.objects, bucket)
        ensures exists i :: 0 <= i < |run.issued| && Matches(run.issued[i].call.query, n)
      {
        assert Matches(run.issued[0].call.query, n);
      }
    }
  }

  /**
   * A successful delete with snapshots leaves exactly the objects of the owner's bucket
   * that are not under the workspace's normalised prefix.
   */
  lemma SnapshotsSuccessClearsPrefix(s: PresignedAccess, objects: Objects, req: DeleteWorkspaceRequest, name: string)
    requires req.includeSnapshots
    requires name in Names(objects, s.bucket(req.ownerId))
    ensures var run := DeleteRun(s, objects, req);
            run.result.Success? ==>
              (name in Names(run.objects, s.bucket(req.ownerId)) <==> !HasPrefix(name, SnapshotsPrefix(s, req.workspaceId)))
  {
  }

  /**
   * A successful delete without snapshots leaves exactly the objects of the owner's bucket
   * that are neither the regular backup nor under the raw trail prefix.
   */
  lemma SingleBackupSuccessClears(s: PresignedAccess, objects: Objects, req: DeleteWorkspaceRequest, name: string)
    requires !req.includeSnapshots
    requires name in Names(objects, s.bucket(req.ownerId))
    ensures var run := DeleteRun(s, objects, req);
            run.result.Success? ==>
              (name in Names(run.objects, s.bucket(req.ownerId)) <==>
                 name != DefaultBackupName(s, req.workspaceId) && !HasPrefix(name, TrailPrefix(s, req.workspaceId)))
  {
  }

  /**
   * Whatever its outcome, a delete with snapshots keeps the objects of a sibling workspace
   * root, whether or not the storage's root for the workspace already ends with the separator.
   */
  lemma SnapshotsDeleteKeepsSiblings(s: PresignedAccess, objects: Objects, req: DeleteWorkspaceRequest,
                                     parent: string, sibling: string, name: string)
    requires req.includeSnapshots
    requires s.backupObject(req.workspaceId, "") == parent + req.workspaceId ||
             s.backupObject(req.workspaceId, "") == parent + req.workspaceId + SEPARATOR
    requires req.workspaceId != "" && sibling != "" && sibling != req.workspaceId
    requires '/' !in req.workspaceId && '/' !in sibling
    requires name in Names(objects, s.bucket(req.ownerId))
    requires HasPrefix(name, NormalizePrefix(parent + sibling))
    ensures name in Names(DeleteRun(s, objects, req).objects, s.bucket(req.ownerId))
  {
    NormalizeRootWithSeparator(parent, req.workspaceId);
    SiblingRootsAreDisjoint(parent, req.workspaceId, sibling, name);
  }

  /** The service: a storage client, and the two operations it offers. */
  class WorkspaceService {
    const s: PresignedAccess

    constructor (s: PresignedAccess)
      ensures this.s == s
    {
      this.s := s;
    }

    /**
     * `DownloadUrlWorkspace`: sign a download of the workspace's regular backup in the
     * owner's bucket, for any content type; return the URL as signed, or the mapped status.
     */
    function DownloadUrlWorkspace(req: DownloadUrlWorkspaceRequest): (r: Result<DownloadUrlWorkspaceResponse, Status>)
      reads s
      ensures var signed := s.signDownload(s.objects, s.bucket(req.ownerId),
                                           s.backupObject(req.workspaceId, DEFAULT_BACKUP),
                                           SignedURLOptions(ANY_CONTENT_TYPE));
              && (r.Success? <==> signed.Success?)
              && (r.Success? ==> r.value.url == signed.value.url)
              && (r.Failure? ==> r.error.message == signed.error.Text()
                                 && (r.error.code == NotFound <==> signed.error == ErrNotFound))
    {
      var blobName := s.backupObject(req.workspaceId, DEFAULT_BACKUP);
      var info := s.signDownload(s.objects, s.bucket(req.ownerId), blobName, SignedURLOptions(ANY_CONTENT_TYPE));
      match info
      case Failure(err) => Failure(ToStatus(err))
      case Success(i) => Success(DownloadUrlWorkspaceResponse(i.url))
    }

    /** `DeleteWorkspace`: issues the deletes of DeleteRun, leaving the store and answer it describes. */
    method DeleteWorkspace(req: DeleteWorkspaceRequest) returns (resp: Result<DeleteWorkspaceResponse, Status>)
      modifies s
      ensures var run := DeleteRun(s, old(s.objects), req);
              && s.log == old(s.log) + run.issued
              && s.objects == run.objects
              && resp == run.result
    {
      var err;
      if req.includeSnapshots {
        var prefix := s.backupObject(req.workspaceId, "");
        if !HasSuffix(prefix, SEPARATOR) {
          prefix := prefix + SEPARATOR;
        }
        err := s.DeleteObject(s.bucket(req.ownerId), ByPrefix(prefix));
        if err.Some? {
          return Failure(ToStatus(err.value));
        }
      } else {
        var blobName := s.backupObject(req.workspaceId, DEFAULT_BACKUP);
        err := s.DeleteObject(s.bucket(req.ownerId), ByName(blobName));
        if err.Some? {
          return Failure(ToStatus(err.value));
        }

        var trailPrefix := s.backupObject(req.workspaceId, TRAIL_LABEL);
        err := s.DeleteObject(s.bucket(req.ownerId), ByPrefix(trailPrefix));
        if err.Some? {
          return Failure(ToStatus(err.value));
        }
      }
      return Success(DeleteWorkspaceResponse);
    }
  }
}
