/** What a covered success is worth: it tells the change that was asked for, and a cache that is
    healthy after it shows that change. */
module CoveredReplies {
  import opened Wrappers
  import opened Paths
  import opened PathIndex
  import opened CacheState
  import opened KernelState
  import opened Operations
  import opened Payloads
  import opened Envelopes
  import opened Coverage
  import opened Batches
  import opened FuseAdapters
  import Dispatching
  import ServedTree
  import Inv = Invalidations

  /** The invalidation announces exactly what the request did, going by the request itself. */
  predicate Tells(payload: RequestPayload, answer: ResponsePayload, inv: Inv.Invalidation) {
    match payload
    case CreateRequest(p) => TellsCreation(p, answer, inv)
    case MkdirRequest(p) => TellsCreation(p, answer, inv)
    case SymlinkRequest(p, _) => TellsCreation(p, answer, inv)
    case HardlinkRequest(_, p) => TellsCreation(p, answer, inv)
    case UnlinkRequest(p) => TellsUpdate(p, Inv.Delete, inv)
    case RmdirRequest(p) => TellsUpdate(p, Inv.Delete, inv)
    case RenameRequest(o, n) => inv.Kind() == Some(Inv.Rename) && o == Some(inv.oldPath) && n == Some(inv.newPath)
    case OpenRequest(p, _, _) => TellsUpdate(p, Inv.Modify, inv)
    case WriteRequest(p, _) => TellsUpdate(p, Inv.Modify, inv)
    case CopyFileRangeRequest(_, p, _, _, _, _) => TellsUpdate(p, Inv.Modify, inv)
    case FallocateRequest(p, _, _, _) => TellsUpdate(p, Inv.Modify, inv)
    case SetattrRequest(p, _, _, _, _) => TellsUpdate(p, Inv.Metadata, inv)
    case SetxattrRequest(p, _, _) => TellsUpdate(p, Inv.Xattr, inv)
    case RemovexattrRequest(p, _) => TellsUpdate(p, Inv.Xattr, inv)
    case _ => false
  }

  predicate TellsCreation(path: Option<Path>, answer: ResponsePayload, inv: Inv.Invalidation) {
    inv.Kind() == Some(Inv.Create) && path == Some(inv.path) && CreatedInode(answer) == Some(inv.inode)
  }

  predicate TellsUpdate(path: Option<Path>, kind: Inv.InvalidationKind, inv: Inv.Invalidation) {
    inv.Kind() == Some(kind) && path == Some(inv.path)
  }

  /** An invalidation of this request that announces it, or asks for a full resync. */
  predicate Announces(request: RequestEnvelope, answer: ResponsePayload, inv: Inv.Invalidation) {
    && inv.namespace == request.namespace && inv.requestId == request.requestId
    && (inv.Kind() == Some(Inv.FullResync) || Tells(request.payload, answer, inv))
  }

  lemma MatchesIffAnnounces(request: RequestEnvelope, answer: ResponsePayload, inv: Inv.Invalidation)
    requires ValidRequestEnvelope(request) && ValidResponseFor(answer, request.payload)
    requires RequiresPathInvalidation(request.payload)
    ensures RequiredFor(request.payload, answer).Some?
    ensures RequiredFor(request.payload, answer).value.Matches(request, inv) <==> Announces(request, answer, inv)
  {
    NeededIffAnnounced(request.payload, answer);
    RequiredIsTold(request.payload, answer, inv);
  }

  lemma RequiredIsTold(payload: RequestPayload, answer: ResponsePayload, inv: Inv.Invalidation)
    requires RequiredFor(payload, answer).Some?
    ensures match RequiredFor(payload, answer).value
            case CreateOf(path, inode) =>
              Tells(payload, answer, inv) <==> inv.Kind() == Some(Inv.Create) && inv.path == path && inv.inode == inode
            case DeleteOf(path) => Tells(payload, answer, inv) <==> inv.Kind() == Some(Inv.Delete) && inv.path == path
            case RenameOf(o, n) =>
              Tells(payload, answer, inv) <==> inv.Kind() == Some(Inv.Rename) && inv.oldPath == o && inv.newPath == n
            case UpdateOf(path, kind) => Tells(payload, answer, inv) <==> inv.Kind() == Some(kind) && inv.path == path
  {
    if payload.CreateRequest? || payload.MkdirRequest? || payload.SymlinkRequest? || payload.HardlinkRequest? {
      CreationTold(payload, answer);
    } else if ServedTree.IsNaming(payload) {
      RemovalTold(payload, answer);
    } else {
      UpdateTold(payload, answer, inv);
    }
  }

  lemma RemovalTold(payload: RequestPayload, answer: ResponsePayload)
    requires RequiredFor(payload, answer).Some?
    requires payload.UnlinkRequest? || payload.RmdirRequest? || payload.RenameRequest?
    ensures if payload.RenameRequest? then
              && payload.oldPath.Some? && payload.newPath.Some?
              && RequiredFor(payload, answer) == Some(RenameOf(payload.oldPath.value, payload.newPath.value))
            else payload.path.Some? && RequiredFor(payload, answer) == Some(DeleteOf(payload.path.value))
  {
  }

  lemma CreationTold(payload: RequestPayload, answer: ResponsePayload)
    requires RequiredFor(payload, answer).Some?
    requires payload.CreateRequest? || payload.MkdirRequest? || payload.SymlinkRequest? || payload.HardlinkRequest?
    ensures PrimaryPath(payload) == if payload.HardlinkRequest? then payload.newPath else payload.path
    ensures PrimaryPath(payload).Some? && CreatedInode(answer).Some?
    ensures RequiredFor(payload, answer) == Some(CreateOf(PrimaryPath(payload).value, CreatedInode(answer).value))
  {
  }

  /** The kind that announces a change of contents or attributes. */
  function UpdateKind(payload: RequestPayload): Option<Inv.InvalidationKind> {
    match payload
    case OpenRequest(_, _, _) => Some(Inv.Modify)
    case WriteRequest(_, _) => Some(Inv.Modify)
    case CopyFileRangeRequest(_, _, _, _, _, _) => Some(Inv.Modify)
    case FallocateRequest(_, _, _, _) => Some(Inv.Modify)
    case SetattrRequest(_, _, _, _, _) => Some(Inv.Metadata)
    case SetxattrRequest(_, _, _) => Some(Inv.Xattr)
    case RemovexattrRequest(_, _) => Some(Inv.Xattr)
    case _ => None
  }

  lemma UpdateTold(payload: RequestPayload, answer: ResponsePayload, inv: Inv.Invalidation)
    requires RequiredFor(payload, answer).Some? && !ServedTree.IsNaming(payload)
    ensures RequiredFor(payload, answer).value.UpdateOf?
    ensures var required := RequiredFor(payload, answer).value;
            Tells(payload, answer, inv) <==> inv.Kind() == Some(required.kind) && inv.path == required.path
  {
    UpdateRequired(payload, answer);
    UpdateTellsKind(payload, answer, inv);
  }

  lemma UpdateRequired(payload: RequestPayload, answer: ResponsePayload)
    requires RequiredFor(payload, answer).Some? && !ServedTree.IsNaming(payload)
    ensures UpdateKind(payload).Some? && PathForRole(payload, Target).Some?
    ensures RequiredFor(payload, answer)
         == Some(UpdateOf(PathForRole(payload, Target).value, UpdateKind(payload).value))
  {
    UpdateEffect(payload);
    UpdatePath(payload);
  }

  lemma UpdateEffect(payload: RequestPayload)
    requires !ServedTree.IsNaming(payload)
    ensures var effect := SpecFor(RequestOperation(payload)).effect;
            && effect != CreateNode && effect != DeleteNode && effect != RenameNode
            && (!payload.OpenRequest? ==> Dispatching.KindForEffect(effect) == UpdateKind(payload))
  {
  }

  lemma UpdatePath(payload: RequestPayload)
    ensures UpdateKind(payload).Some? ==> PrimaryPath(payload) == PathForRole(payload, Target)
  {
  }

  lemma UpdateTellsKind(payload: RequestPayload, answer: ResponsePayload, inv: Inv.Invalidation)
    requires UpdateKind(payload).Some?
    ensures Tells(payload, answer, inv)
            <==> inv.Kind() == UpdateKind(payload) && PathForRole(payload, Target) == Some(inv.path)
  {
  }

  /** A success of a path mutation is covered exactly if one of its invalidations announces it. */
  lemma CoveredIffAnnounced(request: RequestEnvelope, response: ResponseEnvelope)
    requires ValidRequestEnvelope(request) && RequiresPathInvalidation(request.payload)
    requires response.payload.Some? && ValidResponseFor(response.payload.value, request.payload)
    ensures Covered(request, response)
            <==> exists inv :: inv in response.invalidations && Announces(request, response.payload.value, inv)
  {
    forall inv | inv in response.invalidations
      ensures RequiredFor(request.payload, response.payload.value).Some?
      ensures RequiredFor(request.payload, response.payload.value).value.Matches(request, inv)
              <==> Announces(request, response.payload.value, inv)
    {
      MatchesIffAnnounces(request, response.payload.value, inv);
    }
    NeededIffAnnounced(request.payload, response.payload.value);
  }

  /** The cached names show what the request did: a new name has its inode, a removed or renamed
      one is gone with everything below it. */
  ghost predicate Shows(m: Index, payload: RequestPayload, answer: ResponsePayload) {
    match payload
    case CreateRequest(p) => ShowsCreation(m, p, answer)
    case MkdirRequest(p) => ShowsCreation(m, p, answer)
    case SymlinkRequest(p, _) => ShowsCreation(m, p, answer)
    case HardlinkRequest(_, p) => ShowsCreation(m, p, answer)
    case UnlinkRequest(p) => ShowsRemoval(m, p)
    case RmdirRequest(p) => ShowsRemoval(m, p)
    case RenameRequest(o, _) => ShowsRemoval(m, o)
    case _ => true
  }

  predicate ShowsCreation(m: Index, path: Option<Path>, answer: ResponsePayload) {
    path.Some? && (path.value in m ==> CreatedInode(answer) == Some(m[path.value]))
  }

  ghost predicate ShowsRemoval(m: Index, path: Option<Path>) {
    path.Some? && forall p :: p in m ==> !InSubtree(p, path.value)
  }

  /** Once a settled success has been applied as far as the invalidation that announces it, a cache
      that is healthy shows the change. */
  lemma MutationShown(request: RequestEnvelope, response: ResponseEnvelope, k: Kernel) returns (i: nat)
    requires Settles(request, Ok(response)) && response.ok && RequiresPathInvalidation(request.payload)
    ensures i < |response.invalidations|
    ensures var after := AfterBatch(request.namespace, k, response.invalidations[..i + 1], false).cache;
            !after.poisoned ==> Shows(after.inodes, request.payload, response.payload.value)
  {
    CoveredIffAnnounced(request, response);
    var answer := response.payload.value;
    var inv :| inv in response.invalidations && Announces(request, answer, inv);
    i :| 0 <= i < |response.invalidations| && response.invalidations[i] == inv;
    assert response.invalidations[..i + 1][..i] == response.invalidations[..i];
    var before := AfterBatch(request.namespace, k, response.invalidations[..i], false);
    ShownAtOnce(before, request, answer, inv);
  }

  lemma ShownAtOnce(k: Kernel, request: RequestEnvelope, answer: ResponsePayload, inv: Inv.Invalidation)
    requires ValidRequestEnvelope(request) && ValidResponseFor(answer, request.payload)
    requires Inv.ValidInvalidation(inv) && Announces(request, answer, inv)
    ensures var after := Apply(k, request.namespace, inv, false).0.cache;
            !after.poisoned ==> Shows(after.inodes, request.payload, answer)
  {
    CacheAfter(k, request.namespace, inv, false);
    if inv.Kind() == Some(Inv.FullResync) {
      RootShows(request.payload, answer);
    } else {
      NextShows(k, request.payload, answer, inv);
    }
  }

  lemma RootShows(payload: RequestPayload, answer: ResponsePayload)
    requires ValidRequest(payload)
    ensures Shows(map["/" := ROOT_INODE], payload, answer)
  {
  }

  lemma NextShows(k: Kernel, payload: RequestPayload, answer: ResponsePayload, inv: Inv.Invalidation)
    requires Inv.ValidInvalidation(inv) && Tells(payload, answer, inv)
    requires ValidResponseFor(answer, payload)
    ensures Shows(ApplyNext(k, inv).cache.inodes, payload, answer)
  {
    if inv.Kind().value == Inv.Rename {
      RenameShows(k.cache.inodes, inv.oldPath, inv.newPath);
    }
  }

  lemma RenameShows(m: Index, oldPath: Path, newPath: Path)
    requires Disjoint(oldPath, newPath)
    ensures ShowsRemoval(PathIndex.Renamed(m, oldPath, newPath), Some(oldPath))
  {
    forall p | p in PathIndex.Renamed(m, oldPath, newPath)
      ensures !InSubtree(p, oldPath)
    {
      RenamedAt(m, oldPath, newPath, p);
      DisjointSubtrees(p, oldPath, newPath);
    }
  }
}
