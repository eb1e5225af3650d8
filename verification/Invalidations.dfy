/** Invalidation messages: `fs-protocol/src/invalidation.rs`. */
module Invalidations {
  import opened Wrappers
  import opened Paths

  datatype InvalidationKind = Create | Modify | Delete | Rename | Metadata | Xattr | FullResync
  {
    function WireValue(): int {
      match this
      case Create => 1
      case Modify => 2
      case Delete => 3
      case Rename => 4
      case Metadata => 5
      case Xattr => 6
      case FullResync => 7
    }
  }

  function KindOf(wire: int): (kind: Option<InvalidationKind>)
    ensures forall k: InvalidationKind :: kind == Some(k) <==> k.WireValue() == wire
  {
    match wire
    case 1 => Some(Create)
    case 2 => Some(Modify)
    case 3 => Some(Delete)
    case 4 => Some(Rename)
    case 5 => Some(Metadata)
    case 6 => Some(Xattr)
    case 7 => Some(FullResync)
    case _ => None
  }

  /** As it travels: the kind is a raw number and unused paths are empty strings. */
  datatype Invalidation = Invalidation(
    namespace: string,
    sequence: nat,
    wireKind: int,
    path: string,
    oldPath: string,
    newPath: string,
    inode: nat,
    requestId: string)
  {
    function Kind(): Option<InvalidationKind> {
      KindOf(wireKind)
    }

    /** The change it announces, whoever asked for it. */
    function Anonymous(): Invalidation {
      this.(requestId := "")
    }
  }

  predicate ValidInvalidation(value: Invalidation) {
    && value.namespace != ""
    && value.Kind().Some?
    && (match value.Kind().value
        case Create => ValidNonRoot(value.path)
        case Delete => ValidNonRoot(value.path)
        case Modify => ValidPath(value.path)
        case Metadata => ValidPath(value.path)
        case Xattr => ValidPath(value.path)
        case Rename => ValidRename(value.oldPath, value.newPath)
        case FullResync => true)
    && (value.path != "" ==> ValidPath(value.path))
    && (value.oldPath != "" ==> ValidPath(value.oldPath))
    && (value.newPath != "" ==> ValidPath(value.newPath))
  }

  /** A valid invalidation of namespace `namespace` that asks for a full resync. */
  predicate IsResync(namespace: string, value: Invalidation) {
    ValidInvalidation(value) && value.namespace == namespace && value.Kind() == Some(FullResync)
  }

  function FullResyncInvalidation(namespace: string, requestId: string, sequence: nat): Invalidation {
    Invalidation(namespace, sequence, FullResync.WireValue(), "", "", "", 0, requestId)
  }

  /** The invalidations of one namespace, in order. */
  function OfNamespace(invs: seq<Invalidation>, namespace: string): (own: seq<Invalidation>)
    ensures forall inv :: inv in own <==> inv in invs && inv.namespace == namespace
  {
    if invs == [] then []
    else
      var own := OfNamespace(invs[..|invs| - 1], namespace);
      var last := invs[|invs| - 1];
      if last.namespace == namespace then own + [last] else own
  }

  lemma OfNamespaceAppend(invs: seq<Invalidation>, x: Invalidation, namespace: string)
    ensures OfNamespace(invs + [x], namespace)
         == OfNamespace(invs, namespace) + if x.namespace == namespace then [x] else []
  {
    assert (invs + [x])[..|invs|] == invs;
  }

  lemma {:induction false} OfNamespaceConcat(a: seq<Invalidation>, b: seq<Invalidation>, namespace: string)
    ensures OfNamespace(a + b, namespace) == OfNamespace(a, namespace) + OfNamespace(b, namespace)
  {
    if b == [] {
      assert a + b == a;
    } else {
      var b' := b[..|b| - 1];
      assert (a + b)[..|a + b| - 1] == a + b';
      OfNamespaceConcat(a, b', namespace);
    }
  }

  /** Numbered `first`, `first + 1`, and so on. */
  predicate Consecutive(invs: seq<Invalidation>, first: nat) {
    forall i :: 0 <= i < |invs| ==> invs[i].sequence == first + i
  }
}
