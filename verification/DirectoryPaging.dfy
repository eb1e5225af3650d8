/** Directory paging: the presenter (`fabricfs-fuse/src/reply.rs`) adds "." and ".." in front of
    the server's window over the listing (`fabricfs-server/src/service.rs`). */
module DirectoryPaging {
  import opened Wrappers
  import opened Payloads

  const READDIR_MAX_ENTRIES: nat := 1024
  const I64_MAX: nat := 0x7FFF_FFFF_FFFF_FFFF
  const EINVAL: nat := 22

  datatype ReplyEntry = ReplyEntry(inode: nat, offset: nat, kind: int, name: string)

  datatype Directory = Directory(inode: nat, parent: nat, listing: seq<DirectoryEntry>)

  datatype Request = Request(kernelOffset: nat, serverOffset: nat, maxEntries: nat)

  function Min(a: nat, b: nat): nat {
    if a < b then a else b
  }

  function ReaddirRequestFor(offset: int): (request: Result<Request, nat>)
    ensures request.Ok? <==> offset >= 0
  {
    if offset < 0 then Err(EINVAL)
    else Ok(Request(offset, if offset < 2 then 0 else offset - 2, READDIR_MAX_ENTRIES))
  }

  /** The server's skip and take. */
  function Window(listing: seq<DirectoryEntry>, skip: nat, take: nat): seq<DirectoryEntry> {
    listing[Min(skip, |listing|)..Min(skip + take, |listing|)]
  }

  /** Entry number `k` of the directory as the kernel is to see it; it resumes at `k + 1`. */
  function EntryAt(d: Directory, k: nat): ReplyEntry
    requires k < |d.listing| + 2
  {
    if k == 0 then ReplyEntry(d.inode, 1, FILE_KIND_DIRECTORY, ".")
    else if k == 1 then ReplyEntry(d.parent, 2, FILE_KIND_DIRECTORY, "..")
    else ReplyEntry(d.listing[k - 2].inode, Min(k + 1, I64_MAX), d.listing[k - 2].kind, d.listing[k - 2].name)
  }

  function Whole(d: Directory): (all: seq<ReplyEntry>)
    ensures |all| == |d.listing| + 2
  {
    seq(|d.listing| + 2, k requires 0 <= k < |d.listing| + 2 => EntryAt(d, k))
  }

  /** What the kernel is to see at position `k`: "." is the directory, ".." its parent, and then come
      the entries of the listing as they are. */
  predicate ShownAt(d: Directory, k: nat, e: ReplyEntry) {
    && (k == 0 ==> e.name == "." && e.inode == d.inode && e.kind == FILE_KIND_DIRECTORY)
    && (k == 1 ==> e.name == ".." && e.inode == d.parent && e.kind == FILE_KIND_DIRECTORY)
    && (k >= 2 ==> k - 2 < |d.listing| && DirectoryEntry(e.inode, e.name, e.kind) == d.listing[k - 2])
  }

  /** Resume offsets are exact exactly up to the largest one the kernel interface can carry. */
  lemma OffsetExactIff(d: Directory, k: nat)
    requires k < |Whole(d)|
    ensures Whole(d)[k].offset == k + 1 <==> k + 1 <= I64_MAX
  {
  }

  function PageEnd(d: Directory, offset: nat): nat {
    Min((if offset < 2 then 2 else offset) + READDIR_MAX_ENTRIES, |d.listing| + 2)
  }

  /** The part of the whole directory that a page at `offset` shows. */
  function Page(d: Directory, offset: nat): (page: seq<ReplyEntry>)
    ensures page == [] <==> offset >= |Whole(d)|
  {
    if offset >= |Whole(d)| then [] else Whole(d)[offset..PageEnd(d, offset)]
  }

  /** The presenter's list is exactly that part. */
  method DirectoryEntries(d: Directory, kernelOffset: nat, entries: seq<DirectoryEntry>)
    returns (reply: seq<ReplyEntry>)
    requires var request := ReaddirRequestFor(kernelOffset).value;
             entries == Window(d.listing, request.serverOffset, request.maxEntries)
    ensures reply == Page(d, kernelOffset)
    ensures forall j :: 0 <= j < |reply| ==> ShownAt(d, kernelOffset + j, reply[j])
  {
    reply := [];
    if kernelOffset == 0 {
      reply := reply + [ReplyEntry(d.inode, 1, FILE_KIND_DIRECTORY, ".")];
    }
    if kernelOffset <= 1 {
      reply := reply + [ReplyEntry(d.parent, 2, FILE_KIND_DIRECTORY, "..")];
    }
    var serverOffset := if kernelOffset < 2 then 0 else kernelOffset - 2;
    ghost var dots := |reply|;
    for i := 0 to |entries|
      invariant |reply| == dots + i && (reply != [] ==> kernelOffset + |reply| <= |d.listing| + 2)
      invariant forall j :: 0 <= j < |reply| ==> reply[j] == EntryAt(d, kernelOffset + j)
    {
      var entry := entries[i];
      InWindow(d, kernelOffset, entries, i, dots);
      reply := reply + [ReplyEntry(entry.inode, Min(serverOffset + i + 3, I64_MAX), entry.kind, entry.name)];
    }
    assert kernelOffset < |Whole(d)| ==> |reply| == PageEnd(d, kernelOffset) - kernelOffset;
    SamePage(d, kernelOffset, reply);
  }

  lemma SamePage(d: Directory, offset: nat, reply: seq<ReplyEntry>)
    requires if offset >= |Whole(d)| then reply == [] else |reply| == PageEnd(d, offset) - offset
    requires forall j :: 0 <= j < |reply| ==> offset + j < |d.listing| + 2 && reply[j] == EntryAt(d, offset + j)
    ensures reply == Page(d, offset)
    ensures forall j :: 0 <= j < |reply| ==> ShownAt(d, offset + j, reply[j])
  {
  }

  /** Entry `i` of the server's window, behind the dot entries shown with it. */
  lemma InWindow(d: Directory, kernelOffset: nat, entries: seq<DirectoryEntry>, i: nat, dots: nat)
    requires var request := ReaddirRequestFor(kernelOffset).value;
             entries == Window(d.listing, request.serverOffset, request.maxEntries)
    requires i < |entries| && dots == if kernelOffset < 2 then 2 - kernelOffset else 0
    ensures kernelOffset + dots + i < |d.listing| + 2
    ensures var serverOffset := if kernelOffset < 2 then 0 else kernelOffset - 2;
            EntryAt(d, kernelOffset + dots + i)
            == ReplyEntry(entries[i].inode, Min(serverOffset + i + 3, I64_MAX), entries[i].kind, entries[i].name)
  {
  }

  /** Fills the kernel's buffer until an entry does not fit. */
  method ReplyDirectory(entries: seq<ReplyEntry>, full: ReplyEntry -> bool) returns (added: seq<ReplyEntry>)
    ensures added <= entries
    ensures forall e :: e in added ==> !full(e)
    ensures added == entries || full(entries[|added|])
  {
    added := [];
    for i := 0 to |entries|
      invariant added == entries[..i]
      invariant forall e :: e in added ==> !full(e)
    {
      if full(entries[i]) {
        break;
      }
      added := added + [entries[i]];
    }
  }

  /** How many entries of a non-empty page the kernel accepts. */
  function Accepted(page: seq<ReplyEntry>, cut: nat): (n: nat)
    requires page != []
    ensures 1 <= n <= |page|
  {
    if cut == 0 then 1 else Min(cut, |page|)
  }

  /** What a reader collects that starts at `offset`, takes at least one entry of every non-empty
      page, cut off wherever its buffers end, and resumes at the last accepted entry's offset. */
  function Collect(d: Directory, offset: nat, cuts: nat -> nat): seq<ReplyEntry>
    requires |Whole(d)| <= I64_MAX
    decreases |Whole(d)| - offset
  {
    var page := Page(d, offset);
    if page == [] then []
    else
      var n := Accepted(page, cuts(offset));
      OffsetExactIff(d, offset + n - 1);
      assert page[n - 1] == Whole(d)[offset + n - 1];
      page[..n] + Collect(d, page[n - 1].offset, cuts)
  }

  lemma CollectsOnePage(d: Directory, offset: nat, cuts: nat -> nat) returns (next: nat)
    requires offset < |Whole(d)| <= I64_MAX
    ensures offset < next <= |Whole(d)|
    ensures Collect(d, offset, cuts) == Whole(d)[offset..next] + Collect(d, next, cuts)
  {
    var page := Page(d, offset);
    next := offset + Accepted(page, cuts(offset));
    OffsetExactIff(d, next - 1);
    assert page[next - offset - 1] == Whole(d)[next - 1];
    PrefixOfSlice(Whole(d), offset, PageEnd(d, offset), next - offset);
  }

  lemma PrefixOfSlice<T>(s: seq<T>, a: nat, b: nat, n: nat)
    requires a <= b <= |s| && n <= b - a
    ensures s[a..b][..n] == s[a..a + n]
  {
  }

  lemma Rejoined<T>(s: seq<T>, a: nat, b: nat)
    requires a <= b <= |s|
    ensures s[a..b] + s[b..] == s[a..]
  {
  }

  lemma {:induction false} CollectsTheRest(d: Directory, offset: nat, cuts: nat -> nat)
    requires |Whole(d)| <= I64_MAX && offset <= |Whole(d)|
    ensures Collect(d, offset, cuts) == Whole(d)[offset..]
    decreases |Whole(d)| - offset
  {
    if offset < |Whole(d)| {
      var next := CollectsOnePage(d, offset, cuts);
      CollectsTheRest(d, next, cuts);
      Rejoined(Whole(d), offset, next);
    }
  }

  /** Wherever the pages are cut, the reader ends, having seen ".", ".." and every entry of the
      listing exactly once and in order. */
  lemma CollectsWholeDirectory(d: Directory, cuts: nat -> nat)
    requires |Whole(d)| <= I64_MAX
    ensures Collect(d, 0, cuts) == Whole(d)
    ensures |Collect(d, 0, cuts)| == |d.listing| + 2
    ensures forall k :: 0 <= k < |d.listing| + 2 ==> ShownAt(d, k, Collect(d, 0, cuts)[k])
  {
    CollectsTheRest(d, 0, cuts);
  }

  /** No name is shown twice when the server's names are distinct and pass the response check. */
  lemma NamesShownOnce(d: Directory, i: nat, j: nat)
    requires ValidResponse(ReaddirResponse(d.listing, true))
    requires forall a, b :: 0 <= a < b < |d.listing| ==> d.listing[a].name != d.listing[b].name
    requires i < j < |Whole(d)|
    ensures Whole(d)[i].name != Whole(d)[j].name
  {
    if j >= 2 {
      assert d.listing[j - 2] in d.listing;
    }
  }

  /** Where a reader stands after some pages, with `cuts(n)` entries of page `n` accepted. */
  function OffsetAfter(d: Directory, cuts: nat -> nat, pages: nat): nat {
    if pages == 0 then 0
    else
      var offset := OffsetAfter(d, cuts, pages - 1);
      var page := Page(d, offset);
      if page == [] then offset else page[Accepted(page, cuts(pages - 1)) - 1].offset
  }

  ghost predicate Ends(d: Directory, cuts: nat -> nat) {
    exists pages :: Page(d, OffsetAfter(d, cuts, pages)) == []
  }

  /** Reading a directory ends if and only if its last resume offset fits the kernel's type;
      beyond that, no number of pages gets a reader past the entry at the limit. */
  lemma PagingEndsIff(d: Directory, cuts: nat -> nat)
    ensures Ends(d, cuts) <==> |Whole(d)| <= I64_MAX
  {
    if |Whole(d)| <= I64_MAX {
      Advances(d, cuts, |Whole(d)|);
      assert Page(d, OffsetAfter(d, cuts, |Whole(d)|)) == [];
    } else {
      forall pages: nat
        ensures Page(d, OffsetAfter(d, cuts, pages)) != []
      {
        NeverBeyond(d, cuts, pages);
      }
    }
  }

  /** An accepted entry resumes right behind itself, or at the limit. */
  lemma ResumesBehind(d: Directory, offset: nat, n: nat)
    requires offset < |Whole(d)| && 1 <= n <= |Page(d, offset)|
    ensures Page(d, offset)[n - 1].offset == Min(offset + n, I64_MAX)
  {
    assert Page(d, offset)[n - 1] == Whole(d)[offset + n - 1] == EntryAt(d, offset + n - 1);
  }

  lemma NextOffset(d: Directory, cuts: nat -> nat, pages: nat)
    requires pages > 0
    ensures var before, after := OffsetAfter(d, cuts, pages - 1), OffsetAfter(d, cuts, pages);
            if before >= |Whole(d)| then after == before
            else after <= I64_MAX && (before < I64_MAX ==> before < after)
  {
    var offset := OffsetAfter(d, cuts, pages - 1);
    if offset < |Whole(d)| {
      ResumesBehind(d, offset, Accepted(Page(d, offset), cuts(pages - 1)));
    }
  }

  lemma {:induction false} Advances(d: Directory, cuts: nat -> nat, pages: nat)
    requires |Whole(d)| <= I64_MAX && pages <= |Whole(d)|
    ensures pages <= OffsetAfter(d, cuts, pages)
  {
    if pages == 0 {
    } else {
      Advances(d, cuts, pages - 1);
      NextOffset(d, cuts, pages);
    }
  }

  lemma {:induction false} NeverBeyond(d: Directory, cuts: nat -> nat, pages: nat)
    requires |Whole(d)| > I64_MAX
    ensures OffsetAfter(d, cuts, pages) <= I64_MAX
  {
    if pages == 0 {
    } else {
      NeverBeyond(d, cuts, pages - 1);
      NextOffset(d, cuts, pages);
    }
  }
}
