/** The dispatcher's own log as the server of the coherence theorem: when the service does to its
    tree what it is asked to, what the dispatcher issues is a legal log. */
module ServedTree {
  import opened Wrappers
  import opened Payloads
  import opened Envelopes
  import opened PathComponents
  import opened KernelState
  import opened CacheRuns
  import opened Coherence
  import opened Dispatching
  import opened SequenceNumbers
  import Inv = Invalidations

  /** What a successful call does to the names. */
  ghost predicate Performs(before: Namespace, payload: RequestPayload, response: ResponsePayload, after: Namespace)
    requires ValidRequest(payload) && ValidResponseFor(response, payload)
  {
    match payload
    case CreateRequest(path) => Added(before, after, Components(path.value), response.attr.value.inode)
    case MkdirRequest(path) => Added(before, after, Components(path.value), response.attr.value.inode)
    case SymlinkRequest(path, _) => Added(before, after, Components(path.value), response.attr.value.inode)
    case HardlinkRequest(_, path) => Added(before, after, Components(path.value), response.attr.value.inode)
    case UnlinkRequest(path) => KeptOutside(before, after, Components(path.value))
    case RmdirRequest(path) => KeptOutside(before, after, Components(path.value))
    case RenameRequest(o, n) => Moved(before, after, Components(o.value), Components(n.value))
    case _ => Kept(before, after)
  }

  /** The announcement of what was performed tells the change. */
  lemma PerformedIsAnnounced(request: RequestEnvelope, response: ResponsePayload, sequence: nat,
                             before: Namespace, after: Namespace)
    requires ValidRequestEnvelope(request) && ValidResponseFor(response, request.payload)
    requires KindForRequest(request.payload).Some? && Performs(before, request.payload, response, after)
    ensures Told(request, response, sequence, before, after)
  {
    if !IsNaming(request.payload) {
      UpdateAnnounced(request, response, sequence, before, after);
    } else if request.payload.RenameRequest? {
      RenameAnnounced(request, response, sequence, before, after);
    } else if request.payload.UnlinkRequest? || request.payload.RmdirRequest? {
      RemovalAnnounced(request, response, sequence, before, after);
    } else {
      CreationAnnounced(request, response, sequence, before, after);
    }
  }

  /** The announcement is valid and tells the change of the tree. */
  ghost predicate Told(request: RequestEnvelope, response: ResponsePayload, sequence: nat,
                       before: Namespace, after: Namespace)
  {
    && KindForRequest(request.payload).Some?
    && var inv := Announcement(request, response, KindForRequest(request.payload).value, sequence);
       Inv.ValidInvalidation(inv) && Changes(before, inv, after)
  }

  lemma CreationAnnounced(request: RequestEnvelope, response: ResponsePayload, sequence: nat,
                          before: Namespace, after: Namespace)
    requires ValidRequestEnvelope(request) && ValidResponseFor(response, request.payload)
    requires request.payload.CreateRequest? || request.payload.MkdirRequest? || request.payload.SymlinkRequest?
             || request.payload.HardlinkRequest?
    requires Performs(before, request.payload, response, after)
    ensures Told(request, response, sequence, before, after)
  {
    CreationKind(request.payload, response);
    AnnouncementValid(request, response, sequence);
    assert Inv.KindOf(Inv.InvalidationKind.Create.WireValue()) == Some(Inv.Create);
  }

  lemma CreationKind(payload: RequestPayload, response: ResponsePayload)
    requires ValidResponseFor(response, payload)
    requires payload.CreateRequest? || payload.MkdirRequest? || payload.SymlinkRequest? || payload.HardlinkRequest?
    ensures KindForRequest(payload) == Some(Inv.Create)
    ensures CreatedInode(response).Some? && CreatedInode(response).value != 0
    ensures PrimaryPath(payload) == if payload.HardlinkRequest? then payload.newPath else payload.path
  {
  }

  lemma RemovalAnnounced(request: RequestEnvelope, response: ResponsePayload, sequence: nat,
                         before: Namespace, after: Namespace)
    requires ValidRequestEnvelope(request) && ValidResponseFor(response, request.payload)
    requires request.payload.UnlinkRequest? || request.payload.RmdirRequest?
    requires Performs(before, request.payload, response, after)
    ensures Told(request, response, sequence, before, after)
  {
    AnnouncementValid(request, response, sequence);
    assert Inv.KindOf(Inv.InvalidationKind.Delete.WireValue()) == Some(Inv.Delete);
  }

  lemma RenameAnnounced(request: RequestEnvelope, response: ResponsePayload, sequence: nat,
                        before: Namespace, after: Namespace)
    requires ValidRequestEnvelope(request) && ValidResponseFor(response, request.payload)
    requires request.payload.RenameRequest? && Performs(before, request.payload, response, after)
    ensures Told(request, response, sequence, before, after)
  {
    AnnouncementValid(request, response, sequence);
    assert Inv.KindOf(Inv.InvalidationKind.Rename.WireValue()) == Some(Inv.Rename);
  }

  lemma UpdateAnnounced(request: RequestEnvelope, response: ResponsePayload, sequence: nat,
                        before: Namespace, after: Namespace)
    requires ValidRequestEnvelope(request) && ValidResponseFor(response, request.payload)
    requires KindForRequest(request.payload).Some? && Kept(before, after)
    requires !IsNaming(request.payload)
    ensures Told(request, response, sequence, before, after)
  {
    AnnouncementValid(request, response, sequence);
    OtherKinds(request.payload);
    var kind := KindForRequest(request.payload).value;
    assert Inv.KindOf(kind.WireValue()) == Some(kind);
  }

  /** Requests that change names. */
  predicate IsNaming(payload: RequestPayload) {
    || payload.CreateRequest? || payload.MkdirRequest? || payload.SymlinkRequest? || payload.HardlinkRequest?
    || payload.UnlinkRequest? || payload.RmdirRequest? || payload.RenameRequest?
  }

  lemma OtherKinds(payload: RequestPayload)
    requires KindForRequest(payload).Some? && !IsNaming(payload)
    ensures KindForRequest(payload).value in {Inv.Modify, Inv.Metadata, Inv.Xattr}
  {
  }

  predicate Issues(limits: Limits, namespace: string, e: ServerEvent) {
    match e
    case Serve(call) => call.request.namespace == namespace && Announced(limits, call)
    case ExternalResync(n, _) => n == namespace
  }

  /** What an event does to one namespace's tree: an announced call performs what it was asked,
      the storage may be changed in any way behind an external resync, and nothing else changes
      names. */
  ghost predicate Serves(limits: Limits, namespace: string, e: ServerEvent, before: Namespace, after: Namespace) {
    if !Issues(limits, namespace, e) then after == before
    else e.Serve? ==> Performs(before, e.call.request.payload, e.call.handler.value, after)
  }

  /** `trees[n]` is the namespace's tree after the first `n` events. */
  ghost predicate ServiceRun(limits: Limits, namespace: string, events: seq<ServerEvent>, trees: seq<Namespace>) {
    && |trees| == |events| + 1
    && (forall n :: 0 <= n < |trees| ==> IsRooted(trees[n]))
    && (forall n :: 0 <= n < |events| ==> ServesAt(limits, namespace, events, trees, n))
  }

  ghost predicate ServesAt(limits: Limits, namespace: string, events: seq<ServerEvent>, trees: seq<Namespace>, n: nat)
    requires n < |events| && |trees| == |events| + 1
  {
    Serves(limits, namespace, events[n], trees[n], trees[n + 1])
  }

  /** The trees as of each issued number, starting with the first tree as of 0. */
  function TreesByNumber(limits: Limits, namespace: string, events: seq<ServerEvent>, trees: seq<Namespace>)
    : (spaces: seq<Namespace>)
    requires |trees| == |events| + 1
    ensures spaces != []
  {
    if events == [] then [trees[0]]
    else
      var spaces := TreesByNumber(limits, namespace, events[..|events| - 1], trees[..|events|]);
      if Issues(limits, namespace, events[|events| - 1]) then spaces + [trees[|events|]] else spaces
  }

  function DispatchedServer(limits: Limits, namespace: string, events: seq<ServerEvent>, trees: seq<Namespace>): Server
    requires |trees| == |events| + 1
  {
    Server(namespace, Inv.OfNamespace(Issued(limits, events), namespace),
           TreesByNumber(limits, namespace, events, trees))
  }

  /** The log of a dispatcher whose service does what it is asked is legal, and its last tree is
      the current one. */
  lemma {:induction false} DispatchedLogIsLegal(limits: Limits, namespace: string, events: seq<ServerEvent>,
                                                trees: seq<Namespace>)
    requires namespace != "" && ServiceRun(limits, namespace, events, trees)
    ensures var server := DispatchedServer(limits, namespace, events, trees);
            server.Legal() && server.spaces[|server.log|] == trees[|events|]
  {
    if events == [] {
      var server := DispatchedServer(limits, namespace, events, trees);
      assert IsRooted(trees[0]) && server.log == [] && server.spaces == [trees[0]];
    } else {
      var init, e := events[..|events| - 1], events[|events| - 1];
      var earlier, tree := trees[..|events|], trees[|events|];
      assert events == init + [e] && trees == earlier + [tree];
      EarlierRun(limits, namespace, events, trees);
      DispatchedLogIsLegal(limits, namespace, init, earlier);
      NextEntryIsLegal(limits, namespace, init, e, earlier, tree);
    }
  }

  lemma EarlierRun(limits: Limits, namespace: string, events: seq<ServerEvent>, trees: seq<Namespace>)
    requires events != [] && ServiceRun(limits, namespace, events, trees)
    ensures ServiceRun(limits, namespace, events[..|events| - 1], trees[..|events|])
    ensures IsRooted(trees[|events|])
    ensures Serves(limits, namespace, events[|events| - 1], trees[|events| - 1], trees[|events|])
  {
    var init := events[..|events| - 1];
    forall n | 0 <= n < |init|
      ensures ServesAt(limits, namespace, init, trees[..|events|], n)
    {
      assert ServesAt(limits, namespace, events, trees, n);
    }
    assert ServesAt(limits, namespace, events, trees, |init|);
  }

  lemma NextEntryIsLegal(limits: Limits, namespace: string, init: seq<ServerEvent>, e: ServerEvent,
                         trees: seq<Namespace>, tree: Namespace)
    requires namespace != "" && |trees| == |init| + 1 && IsRooted(tree)
    requires Serves(limits, namespace, e, trees[|init|], tree)
    requires var server := DispatchedServer(limits, namespace, init, trees);
             server.Legal() && server.spaces[|server.log|] == trees[|init|]
    ensures var server := DispatchedServer(limits, namespace, init + [e], trees + [tree]);
            server.Legal() && server.spaces[|server.log|] == tree
  {
    var before := DispatchedServer(limits, namespace, init, trees);
    var own := Inv.OfNamespace(IssuedBy(limits, Counted(limits, init), e), namespace);
    LogNext(limits, namespace, init, e);
    TreesNext(limits, namespace, init, e, trees, tree);
    NoNumberLeaked(limits, init, namespace);
    OwnIssue(limits, Counted(limits, init), e, namespace, trees[|init|], tree);
    GrowsOrStays(before, DispatchedServer(limits, namespace, init + [e], trees + [tree]), own, tree);
  }

  /** A legal log stays legal when it grows by the next entry, with its tree, or not at all. */
  lemma GrowsOrStays(before: Server, after: Server, own: seq<Inv.Invalidation>, tree: Namespace)
    requires before.Legal() && IsRooted(tree) && |own| <= 1
    requires after == Server(before.namespace, before.log + own, before.spaces + if own == [] then [] else [tree])
    requires own == [] ==> tree == before.spaces[|before.log|]
    requires own != [] ==>
               && Inv.ValidInvalidation(own[0]) && own[0].namespace == before.namespace
               && own[0].sequence == |before.log| + 1 && Changes(before.spaces[|before.log|], own[0], tree)
    ensures after.Legal() && after.spaces[|after.log|] == tree
  {
    if own == [] {
      assert after == before;
    } else {
      assert own == [own[0]];
      LogGrows(before, own[0], tree);
    }
  }

  lemma LogNext(limits: Limits, namespace: string, init: seq<ServerEvent>, e: ServerEvent)
    ensures Inv.OfNamespace(Issued(limits, init + [e]), namespace)
         == Inv.OfNamespace(Issued(limits, init), namespace)
            + Inv.OfNamespace(IssuedBy(limits, Counted(limits, init), e), namespace)
  {
    assert (init + [e])[..|init|] == init;
    Inv.OfNamespaceConcat(Issued(limits, init), IssuedBy(limits, Counted(limits, init), e), namespace);
  }

  lemma TreesNext(limits: Limits, namespace: string, init: seq<ServerEvent>, e: ServerEvent,
                  trees: seq<Namespace>, tree: Namespace)
    requires |trees| == |init| + 1
    ensures TreesByNumber(limits, namespace, init + [e], trees + [tree])
         == TreesByNumber(limits, namespace, init, trees) + if Issues(limits, namespace, e) then [tree] else []
  {
    assert (init + [e])[..|init|] == init && (trees + [tree])[..|trees|] == trees;
  }

  /** What one event adds to the namespace's log. */
  lemma OwnIssue(limits: Limits, next: Counters, e: ServerEvent, namespace: string, before: Namespace, after: Namespace)
    requires namespace != "" && Serves(limits, namespace, e, before, after)
    ensures var own := Inv.OfNamespace(IssuedBy(limits, next, e), namespace);
            && (!Issues(limits, namespace, e) ==> own == [])
            && (Issues(limits, namespace, e) ==>
                  && |own| == 1 && own[0].namespace == namespace && own[0].sequence == NextFor(next, namespace)
                  && Inv.ValidInvalidation(own[0]) && Changes(before, own[0], after))
  {
    var issued := IssuedBy(limits, next, e);
    assert |issued| == 1 ==> issued[..0] == [];
    match e
    case Serve(call) =>
      if Issues(limits, namespace, e) {
        PerformedIsAnnounced(call.request, call.handler.value, NextFor(next, namespace), before, after);
      }
    case ExternalResync(n, id) =>
      assert Inv.FullResyncInvalidation(n, id, 0).Kind() == Some(Inv.FullResync);
  }

  lemma LogGrows(server: Server, inv: Inv.Invalidation, tree: Namespace)
    requires server.Legal() && IsRooted(tree)
    requires Inv.ValidInvalidation(inv) && inv.namespace == server.namespace && inv.sequence == |server.log| + 1
    requires Changes(server.spaces[|server.log|], inv, tree)
    ensures Server(server.namespace, server.log + [inv], server.spaces + [tree]).Legal()
  {
    var longer := Server(server.namespace, server.log + [inv], server.spaces + [tree]);
    forall n | 0 <= n < |longer.log|
      ensures longer.Logged(n)
    {
      assert n < |server.log| ==> server.Logged(n);
    }
    forall n | 0 <= n <= |longer.log|
      ensures longer.Rooted(n)
    {
      assert n <= |server.log| ==> server.Rooted(n);
    }
  }

  /** The coherence theorem for clients of the dispatcher itself. */
  lemma ClientsOfDispatcherCoherent(limits: Limits, namespace: string, served: seq<ServerEvent>,
                                    trees: seq<Namespace>, events: seq<Event>)
    requires namespace != "" && ServiceRun(limits, namespace, served, trees)
    requires PermittedRun(DispatchedServer(limits, namespace, served, trees), events)
    ensures Coherent(DispatchedServer(limits, namespace, served, trees), Run(namespace, EmptyKernel, events))
  {
    DispatchedLogIsLegal(limits, namespace, served, trees);
    CoherentAlways(DispatchedServer(limits, namespace, served, trees), events);
  }
}
