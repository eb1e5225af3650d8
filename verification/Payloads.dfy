/** Request and response payloads with their validation: `fs-protocol/src/payload.rs` and
    `fs-protocol/src/validation.rs`. A field that no rule of this model reads is not declared. */
module Payloads {
  import opened Wrappers
  import opened Paths
  import opened Operations
  import opened Sequences

  /** The bit of the open flags that asks for truncation. */
  const OPEN_FLAG_TRUNCATE: nat := 512

  const FILE_KIND_FILE := 1
  const FILE_KIND_DIRECTORY := 2
  const FILE_KIND_SYMLINK := 3

  datatype RequestPayload =
    | LookupRequest(path: Option<Path>)
    | GetattrRequest(path: Option<Path>)
    | ReaddirRequest(path: Option<Path>, maxEntries: nat)
    | OpenRequest(path: Option<Path>, flags: nat, openKind: int)
    | ReadRequest(path: Option<Path>, size: nat)
    | WriteRequest(path: Option<Path>, data: Bytes)
    | CreateRequest(path: Option<Path>)
    | RenameRequest(oldPath: Option<Path>, newPath: Option<Path>)
    | UnlinkRequest(path: Option<Path>)
    | MkdirRequest(path: Option<Path>)
    | RmdirRequest(path: Option<Path>)
    | StatfsRequest(path: Option<Path>)
    | GetxattrRequest(path: Option<Path>, name: Bytes, size: nat)
    | SetxattrRequest(path: Option<Path>, name: Bytes, value: Bytes)
    | ListxattrRequest(path: Option<Path>, size: nat)
    | RemovexattrRequest(path: Option<Path>, name: Bytes)
    | ReleaseRequest(path: Option<Path>, handle: nat, releaseFlags: nat)
    | ReadlinkRequest(path: Option<Path>)
    | SymlinkRequest(path: Option<Path>, target: Bytes)
    | HardlinkRequest(existingPath: Option<Path>, newPath: Option<Path>)
    | SetattrRequest(path: Option<Path>, mode: Option<nat>, uid: Option<nat>, gid: Option<nat>,
                     newSize: Option<nat>)
    | FlushRequest(path: Option<Path>)
    | FsyncRequest(path: Option<Path>)
    | FsyncdirRequest(path: Option<Path>)
    | GetlkRequest(path: Option<Path>, start: nat, end: nat, lockType: int)
    | SetlkRequest(path: Option<Path>, start: nat, end: nat, lockType: int)
    | FlockRequest(path: Option<Path>, command: int)
    | CopyFileRangeRequest(inputPath: Option<Path>, outputPath: Option<Path>, inputOffset: int,
                           outputOffset: int, length: int, copyFlags: nat)
    | FallocateRequest(path: Option<Path>, offset: int, length: int, allocMode: int)
    | LseekRequest(path: Option<Path>, offset: int, whence: int)

  datatype FileAttr = FileAttr(inode: nat, kind: int)
  datatype DirectoryEntry = DirectoryEntry(inode: nat, name: string, kind: int)
  datatype FileLock = FileLock(start: nat, end: nat, lockType: int)

  datatype ResponsePayload =
    | LookupResponse(attr: Option<FileAttr>)
    | GetattrResponse(attr: Option<FileAttr>)
    | ReaddirResponse(entries: seq<DirectoryEntry>, end: bool)
    | OpenResponse(handle: nat)
    | ReadResponse(data: Bytes)
    | WriteResponse(bytesWritten: nat)
    | CreateResponse(attr: Option<FileAttr>, handle: nat)
    | RenameResponse
    | UnlinkResponse
    | MkdirResponse(attr: Option<FileAttr>)
    | RmdirResponse
    | StatfsResponse(hasStat: bool)
    | GetxattrResponse(value: Bytes)
    | SetxattrResponse
    | ListxattrResponse(names: seq<Bytes>)
    | RemovexattrResponse
    | ReleaseResponse
    | ReadlinkResponse(target: Bytes)
    | SymlinkResponse(attr: Option<FileAttr>)
    | HardlinkResponse(attr: Option<FileAttr>)
    | SetattrResponse(attr: Option<FileAttr>)
    | FlushResponse
    | FsyncResponse
    | FsyncdirResponse
    | GetlkResponse(lock: Option<FileLock>)
    | SetlkResponse
    | FlockResponse
    | CopyFileRangeResponse(bytesCopied: nat)
    | FallocateResponse
    | LseekResponse(offset: int)

  function RequestOperation(payload: RequestPayload): Operation {
    match payload
    case LookupRequest(_) => Lookup
    case GetattrRequest(_) => Getattr
    case ReaddirRequest(_, _) => Readdir
    case OpenRequest(_, _, _) => Open
    case ReadRequest(_, _) => Read
    case WriteRequest(_, _) => Write
    case CreateRequest(_) => Create
    case RenameRequest(_, _) => Rename
    case UnlinkRequest(_) => Unlink
    case MkdirRequest(_) => Mkdir
    case RmdirRequest(_) => Rmdir
    case StatfsRequest(_) => Statfs
    case GetxattrRequest(_, _, _) => Getxattr
    case SetxattrRequest(_, _, _) => Setxattr
    case ListxattrRequest(_, _) => Listxattr
    case RemovexattrRequest(_, _) => Removexattr
    case ReleaseRequest(_, _, _) => Release
    case ReadlinkRequest(_) => Readlink
    case SymlinkRequest(_, _) => Symlink
    case HardlinkRequest(_, _) => Hardlink
    case SetattrRequest(_, _, _, _, _) => Setattr
    case FlushRequest(_) => Flush
    case FsyncRequest(_) => Fsync
    case FsyncdirRequest(_) => Fsyncdir
    case GetlkRequest(_, _, _, _) => Getlk
    case SetlkRequest(_, _, _, _) => Setlk
    case FlockRequest(_, _) => Flock
    case CopyFileRangeRequest(_, _, _, _, _, _) => CopyFileRange
    case FallocateRequest(_, _, _, _) => Fallocate
    case LseekRequest(_, _, _) => Lseek
  }

  function ResponseOperation(payload: ResponsePayload): Operation {
    match payload
    case LookupResponse(_) => Lookup
    case GetattrResponse(_) => Getattr
    case ReaddirResponse(_, _) => Readdir
    case OpenResponse(_) => Open
    case ReadResponse(_) => Read
    case WriteResponse(_) => Write
    case CreateResponse(_, _) => Create
    case RenameResponse => Rename
    case UnlinkResponse => Unlink
    case MkdirResponse(_) => Mkdir
    case RmdirResponse => Rmdir
    case StatfsResponse(_) => Statfs
    case GetxattrResponse(_) => Getxattr
    case SetxattrResponse => Setxattr
    case ListxattrResponse(_) => Listxattr
    case RemovexattrResponse => Removexattr
    case ReleaseResponse => Release
    case ReadlinkResponse(_) => Readlink
    case SymlinkResponse(_) => Symlink
    case HardlinkResponse(_) => Hardlink
    case SetattrResponse(_) => Setattr
    case FlushResponse => Flush
    case FsyncResponse => Fsync
    case FsyncdirResponse => Fsyncdir
    case GetlkResponse(_) => Getlk
    case SetlkResponse => Setlk
    case FlockResponse => Flock
    case CopyFileRangeResponse(_) => CopyFileRange
    case FallocateResponse => Fallocate
    case LseekResponse(_) => Lseek
  }

  function PathForRole(payload: RequestPayload, role: PathRole): Option<Path> {
    match payload
    case RenameRequest(o, n) => if role == Source then o else n
    case HardlinkRequest(e, n) => if role == Source then e else n
    case CopyFileRangeRequest(i, o, _, _, _, _) => if role == Source then i else o
    case _ => if role == Target then payload.path else None
  }

  function PrimaryPath(payload: RequestPayload): Option<Path> {
    match SpecFor(RequestOperation(payload)).PrimaryPathRole()
    case Some(role) => PathForRole(payload, role)
    case None => None
  }

  predicate Truncates(payload: RequestPayload) {
    payload.OpenRequest? && (payload.flags / OPEN_FLAG_TRUNCATE) % 2 == 1
  }

  function CreatedInode(payload: ResponsePayload): Option<nat> {
    if payload.CreateResponse? || payload.MkdirResponse? || payload.SymlinkResponse?
       || payload.HardlinkResponse?
    then match payload.attr case Some(attr) => Some(attr.inode) case None => None
    else None
  }

  function OpenedHandle(payload: ResponsePayload): Option<nat> {
    if payload.OpenResponse? || payload.CreateResponse? then Some(payload.handle) else None
  }

  // Validation of requests.

  predicate ValidPathField(path: Option<Path>) {
    path.Some? && ValidPath(path.value)
  }

  predicate ValidNonRootField(path: Option<Path>) {
    path.Some? && ValidNonRoot(path.value)
  }

  predicate ValidXattrName(name: Bytes) {
    name != [] && 0 !in name
  }

  predicate ValidLockRange(start: nat, end: nat) {
    start <= end
  }

  predicate ValidLockType(lockType: int, allowUnlock: bool) {
    lockType == 0 || lockType == 1 || (allowUnlock && lockType == 2)
  }

  /** One of shared (1), exclusive (2) and unlock (8), with or without non-blocking (4). */
  predicate ValidFlock(command: int) {
    var request := if command == 5 || command == 6 || command == 12 then command - 4 else command;
    request == 1 || request == 2 || request == 8
  }

  predicate ValidRequest(payload: RequestPayload) {
    match payload
    case OpenRequest(path, _, kind) => ValidPathField(path) && (kind == 1 || kind == 2)
    case CreateRequest(path) => ValidNonRootField(path)
    case UnlinkRequest(path) => ValidNonRootField(path)
    case MkdirRequest(path) => ValidNonRootField(path)
    case RmdirRequest(path) => ValidNonRootField(path)
    case RenameRequest(o, n) => o.Some? && n.Some? && ValidRename(o.value, n.value)
    case GetxattrRequest(path, name, _) => ValidPathField(path) && ValidXattrName(name)
    case SetxattrRequest(path, name, _) => ValidPathField(path) && ValidXattrName(name)
    case RemovexattrRequest(path, name) => ValidPathField(path) && ValidXattrName(name)
    case SymlinkRequest(path, target) => ValidNonRootField(path) && target != [] && 0 !in target
    case HardlinkRequest(e, n) =>
      ValidNonRootField(e) && ValidNonRootField(n) && e.value != n.value
    case SetattrRequest(path, mode, uid, gid, size) =>
      && ValidPathField(path)
      && (mode.Some? || uid.Some? || gid.Some? || size.Some?)
      && (mode.Some? ==> mode.value <= 0xFFF)
    case GetlkRequest(path, start, end, typ) =>
      ValidPathField(path) && ValidLockRange(start, end) && ValidLockType(typ, false)
    case SetlkRequest(path, start, end, typ) =>
      ValidPathField(path) && ValidLockRange(start, end) && ValidLockType(typ, true)
    case FlockRequest(path, command) => ValidPathField(path) && ValidFlock(command)
    case CopyFileRangeRequest(i, o, inputOffset, outputOffset, _, flags) =>
      && ValidPathField(i) && ValidPathField(o)
      && inputOffset >= 0 && outputOffset >= 0 && flags == 0
    case FallocateRequest(path, offset, length, mode) =>
      ValidPathField(path) && offset >= 0 && length > 0 && mode >= 0
    case LseekRequest(path, offset, whence) =>
      && ValidPathField(path)
      && 0 <= whence <= 4
      && (whence == 0 || whence == 3 || whence == 4 ==> offset >= 0)
    case _ => ValidPathField(PathForRole(payload, Target))
  }

  // Validation of responses.

  predicate KnownFileKind(kind: int) {
    kind == FILE_KIND_FILE || kind == FILE_KIND_DIRECTORY || kind == FILE_KIND_SYMLINK
  }

  predicate ValidAttr(attr: Option<FileAttr>) {
    attr.Some? && attr.value.inode != 0 && KnownFileKind(attr.value.kind)
  }

  predicate ValidEntry(entry: DirectoryEntry) {
    && entry.inode != 0 && entry.name != "" && entry.name != "." && entry.name != ".."
    && '/' !in entry.name && '\0' !in entry.name && KnownFileKind(entry.kind)
  }

  predicate ValidResponse(payload: ResponsePayload) {
    match payload
    case LookupResponse(attr) => ValidAttr(attr)
    case GetattrResponse(attr) => ValidAttr(attr)
    case SetattrResponse(attr) => ValidAttr(attr)
    case CreateResponse(attr, _) => ValidAttr(attr) && attr.value.kind == FILE_KIND_FILE
    case MkdirResponse(attr) => ValidAttr(attr) && attr.value.kind == FILE_KIND_DIRECTORY
    case SymlinkResponse(attr) => ValidAttr(attr) && attr.value.kind == FILE_KIND_SYMLINK
    case HardlinkResponse(attr) => ValidAttr(attr) && attr.value.kind != FILE_KIND_DIRECTORY
    case ReaddirResponse(entries, _) => forall e :: e in entries ==> ValidEntry(e)
    case StatfsResponse(hasStat) => hasStat
    case ListxattrResponse(names) => forall n :: n in names ==> ValidXattrName(n)
    case ReadlinkResponse(target) => target != [] && 0 !in target
    case GetlkResponse(lock) =>
      lock.Some? ==>
        ValidLockRange(lock.value.start, lock.value.end) && ValidLockType(lock.value.lockType, false)
    case LseekResponse(offset) => offset >= 0
    case _ => true
  }

  function ListxattrSize(names: seq<Bytes>): nat {
    if names == [] then 0 else |names[0]| + 1 + ListxattrSize(names[1..])
  }

  predicate WithinLimit(payload: ResponsePayload, request: RequestPayload)
    requires ResponseOperation(payload) == RequestOperation(request)
  {
    match SpecFor(RequestOperation(request)).responseLimit
    case Unlimited => true
    case RequestedDirectoryEntries => |payload.entries| <= request.maxEntries
    case RequestedReadBytes => |payload.data| <= request.size
    case RequestWriteBytes => payload.bytesWritten <= |request.data|
    case RequestedXattrBytes => request.size == 0 || |payload.value| <= request.size
    case RequestedListxattrBytes => request.size == 0 || ListxattrSize(payload.names) <= request.size
    case RequestedCopyLength => payload.bytesCopied <= request.length
  }

  predicate ValidResponseFor(payload: ResponsePayload, request: RequestPayload) {
    && ResponseOperation(payload) == RequestOperation(request)
    && ValidResponse(payload)
    && WithinLimit(payload, request)
  }

  /** No more than the request asked for or gave. */
  predicate WithinAsked(answer: ResponsePayload, request: RequestPayload) {
    match request
    case ReaddirRequest(_, max) => answer.ReaddirResponse? && |answer.entries| <= max
    case ReadRequest(_, size) => answer.ReadResponse? && |answer.data| <= size
    case WriteRequest(_, data) => answer.WriteResponse? && answer.bytesWritten <= |data|
    case GetxattrRequest(_, _, size) => answer.GetxattrResponse? && (size != 0 ==> |answer.value| <= size)
    case ListxattrRequest(_, size) => answer.ListxattrResponse? && (size != 0 ==> ListxattrSize(answer.names) <= size)
    case CopyFileRangeRequest(_, _, _, _, length, _) =>
      answer.CopyFileRangeResponse? && answer.bytesCopied <= length
    case _ => true
  }

  /** The table's response limits say exactly that. */
  lemma AnswerFitsIff(answer: ResponsePayload, request: RequestPayload)
    requires ResponseOperation(answer) == RequestOperation(request)
    ensures WithinLimit(answer, request) <==> WithinAsked(answer, request)
  {
    LimitFor(request);
    SameVariant(answer, request);
  }

  lemma LimitFor(request: RequestPayload)
    ensures SpecFor(RequestOperation(request)).responseLimit
         == if request.ReaddirRequest? then RequestedDirectoryEntries
            else if request.ReadRequest? then RequestedReadBytes
            else if request.WriteRequest? then RequestWriteBytes
            else if request.GetxattrRequest? then RequestedXattrBytes
            else if request.ListxattrRequest? then RequestedListxattrBytes
            else if request.CopyFileRangeRequest? then RequestedCopyLength else Unlimited
  {
  }

  lemma SameVariant(answer: ResponsePayload, request: RequestPayload)
    requires ResponseOperation(answer) == RequestOperation(request)
    ensures request.ReaddirRequest? <==> answer.ReaddirResponse?
    ensures request.ReadRequest? <==> answer.ReadResponse?
    ensures request.WriteRequest? <==> answer.WriteResponse?
    ensures request.GetxattrRequest? <==> answer.GetxattrResponse?
    ensures request.ListxattrRequest? <==> answer.ListxattrResponse?
    ensures request.CopyFileRangeRequest? <==> answer.CopyFileRangeResponse?
  {
  }
}
