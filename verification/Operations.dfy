/** The operation table of `fs-protocol/src/operation_spec.rs`. */
module Operations {
  import opened Wrappers

  datatype Operation =
    | Lookup | Getattr | Readdir | Open | Read | Write | Create | Rename | Unlink | Mkdir
    | Rmdir | Statfs | Getxattr | Setxattr | Listxattr | Removexattr | Release | Readlink
    | Symlink | Hardlink | Setattr | Flush | Fsync | Fsyncdir | Getlk | Setlk | Flock
    | CopyFileRange | Fallocate | Lseek

  datatype OperationEffect =
    | ReadOnly | HandleLifecycle | ContentMutation | CreateNode | DeleteNode | RenameNode
    | MetadataMutation | XattrMutation | Durability | LockState | SeekState
  {
    predicate RequiresPathInvalidation() {
      ContentMutation? || CreateNode? || DeleteNode? || RenameNode? || MetadataMutation?
      || XattrMutation?
    }
  }

  datatype PathRole = Target | Source
  datatype RootPolicy = Any | NonRoot
  datatype PathRoleSpec = PathRoleSpec(role: PathRole, root: RootPolicy)

  datatype ResponseLimit =
    | Unlimited | RequestedDirectoryEntries | RequestedReadBytes | RequestWriteBytes
    | RequestedXattrBytes | RequestedListxattrBytes | RequestedCopyLength

  datatype OperationSpec = OperationSpec(
    pathRoles: seq<PathRoleSpec>,
    effect: OperationEffect,
    responseLimit: ResponseLimit,
    opensObject: bool)
  {
    function PrimaryPathRole(): Option<PathRole> {
      if pathRoles == [] then None else Some(pathRoles[0].role)
    }
  }

  const TARGET_ANY := [PathRoleSpec(Target, Any)]
  const TARGET_NON_ROOT := [PathRoleSpec(Target, NonRoot)]
  const RENAME_PATHS := [PathRoleSpec(Source, NonRoot), PathRoleSpec(Target, NonRoot)]
  const HARDLINK_PATHS := [PathRoleSpec(Target, NonRoot), PathRoleSpec(Source, NonRoot)]
  const COPY_FILE_RANGE_PATHS := [PathRoleSpec(Target, Any), PathRoleSpec(Source, Any)]

  function SpecFor(operation: Operation): OperationSpec {
    match operation
    case Lookup        => OperationSpec(TARGET_ANY, ReadOnly, Unlimited, false)
    case Getattr       => OperationSpec(TARGET_ANY, ReadOnly, Unlimited, false)
    case Readdir       => OperationSpec(TARGET_ANY, ReadOnly, RequestedDirectoryEntries, false)
    case Open          => OperationSpec(TARGET_ANY, HandleLifecycle, Unlimited, true)
    case Read          => OperationSpec(TARGET_ANY, ReadOnly, RequestedReadBytes, false)
    case Write         => OperationSpec(TARGET_ANY, ContentMutation, RequestWriteBytes, false)
    case Create        => OperationSpec(TARGET_NON_ROOT, CreateNode, Unlimited, true)
    case Rename        => OperationSpec(RENAME_PATHS, RenameNode, Unlimited, false)
    case Unlink        => OperationSpec(TARGET_NON_ROOT, DeleteNode, Unlimited, false)
    case Mkdir         => OperationSpec(TARGET_NON_ROOT, CreateNode, Unlimited, false)
    case Rmdir         => OperationSpec(TARGET_NON_ROOT, DeleteNode, Unlimited, false)
    case Statfs        => OperationSpec(TARGET_ANY, ReadOnly, Unlimited, false)
    case Getxattr      => OperationSpec(TARGET_ANY, ReadOnly, RequestedXattrBytes, false)
    case Setxattr      => OperationSpec(TARGET_ANY, XattrMutation, Unlimited, false)
    case Listxattr     => OperationSpec(TARGET_ANY, ReadOnly, RequestedListxattrBytes, false)
    case Removexattr   => OperationSpec(TARGET_ANY, XattrMutation, Unlimited, false)
    case Release       => OperationSpec(TARGET_ANY, HandleLifecycle, Unlimited, false)
    case Readlink      => OperationSpec(TARGET_ANY, ReadOnly, Unlimited, false)
    case Symlink       => OperationSpec(TARGET_NON_ROOT, CreateNode, Unlimited, false)
    case Hardlink      => OperationSpec(HARDLINK_PATHS, CreateNode, Unlimited, false)
    case Setattr       => OperationSpec(TARGET_ANY, MetadataMutation, Unlimited, false)
    case Flush         => OperationSpec(TARGET_ANY, Durability, Unlimited, false)
    case Fsync         => OperationSpec(TARGET_ANY, Durability, Unlimited, false)
    case Fsyncdir      => OperationSpec(TARGET_ANY, Durability, Unlimited, false)
    case Getlk         => OperationSpec(TARGET_ANY, ReadOnly, Unlimited, false)
    case Setlk         => OperationSpec(TARGET_ANY, LockState, Unlimited, false)
    case Flock         => OperationSpec(TARGET_ANY, LockState, Unlimited, false)
    case CopyFileRange => OperationSpec(COPY_FILE_RANGE_PATHS, ContentMutation, RequestedCopyLength, false)
    case Fallocate     => OperationSpec(TARGET_ANY, ContentMutation, Unlimited, false)
    case Lseek         => OperationSpec(TARGET_ANY, SeekState, Unlimited, false)
  }
}
