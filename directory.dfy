/**
 * src/scanner/directory.rs: the listing walk (`scan_directory`) and the
 * statistics walk (`compute_folder_stats`).
 *
 * The directory walk itself is an input: the sequence of items
 * `WalkDir::new(root)` yields, root first at depth 0, each either an error or
 * an entry. An entry carries what the loop reads from it (path, file name,
 * depth, file type as the walk reports it, without following links) and the
 * outcome of `fs::metadata` on its path (which follows links): absent when
 * the call fails.
 */
module Directory {
  import opened Wrappers
  import opened Paths
  import opened Utils

  /** `entry.file_type()`: a regular file, a directory, or anything else (a link, a device, ...). */
  datatype FileKind = File | Dir | Other

  /** What `fs::metadata` returns when it succeeds; `modified` is absent when `metadata.modified()` fails. */
  datatype Metadata = Metadata(len: nat, modified: Option<Time>)

  /** One entry of a walk, with the outcome of `fs::metadata(entry.path())`. */
  datatype WalkEntry = WalkEntry(path: Path, name: string, depth: nat, kind: FileKind, metadata: Option<Metadata>)

  /** One item of the walk: `Err(_)` or `Ok(entry)`. */
  datatype WalkItem = WalkError | Visited(entry: WalkEntry)

  datatype FileEntry = FileEntry(path: Path, name: string, size: string, modified: string, depth: nat, isFolder: bool)

  datatype FolderStats = FolderStats(
    fileName: string,
    totalSize: string,
    allocatedSize: string,
    itemCount: nat,
    fileCount: nat,
    subdirCount: nat,
    lastModified: string)

  /** `entry.depth() as u32` keeps the depth modulo 2^32. */
  const U32Modulus: nat := 0x1_0000_0000

  /** A modification time as the scanner shows it: rendered, or "Unknown" when there is none. */
  function ModifiedText(t: Option<Time>): string
  {
    match t
    case Some(time) => HumanReadableTime(time)
    case None => "Unknown"
  }

  // ---------------------------------------------------------------------
  // scan_directory

  /** The walk items that become listing entries: an entry below the root
      (`min_depth(1)`) whose metadata could be read. */
  predicate Listed(item: WalkItem)
  {
    item.Visited? && item.entry.depth >= 1 && item.entry.metadata.Some?
  }

  /** The listing entry built from a listed walk item. */
  function EntryOf(item: WalkItem): FileEntry
    requires Listed(item)
  {
    var e := item.entry;
    var m := e.metadata.value;
    FileEntry(e.path, e.name, HumanReadableSize(m.len), ModifiedText(m.modified), e.depth % U32Modulus, e.kind == Dir)
  }

  /** The listing of a walk: one entry per listed item, in walk order. */
  function Listing(walk: seq<WalkItem>): seq<FileEntry>
  {
    if walk == [] then []
    else
      var last := walk[|walk| - 1];
      Listing(walk[..|walk| - 1]) + (if Listed(last) then [EntryOf(last)] else [])
  }

  /** `scan_directory`: walks below the root and pushes one entry per item it can stat. */
  method ScanDirectory(walk: seq<WalkItem>) returns (files: seq<FileEntry>)
    ensures files == Listing(walk)
  {
    files := [];
    for i := 0 to |walk|
      invariant files == Listing(walk[..i])
    {
      assert walk[..i + 1][..i] == walk[..i];
      // the root (depth 0) is never handed out by a walk with `min_depth(1)`
      if walk[i].WalkError? || walk[i].entry.depth < 1 {
        continue;
      }
      var entry := walk[i].entry;
      var depth := entry.depth % U32Modulus;
      var isFolder := entry.kind == Dir;
      if entry.metadata.None? {
        continue;
      }
      var metadata := entry.metadata.value;
      var fileName := entry.name;
      var fileSize := HumanReadableSize(metadata.len);
      var modifiedTime := if metadata.modified.Some? then HumanReadableTime(metadata.modified.value) else "Unknown";
      files := files + [FileEntry(entry.path, fileName, fileSize, modifiedTime, depth, isFolder)];
    }
    assert walk[..|walk|] == walk;
  }

  // ---------------------------------------------------------------------
  // compute_folder_stats

  /** The walk items the statistics count: any entry, the root included, whose metadata could be read. */
  predicate Counted(item: WalkItem)
  {
    item.Visited? && item.entry.metadata.Some?
  }

  /** The counted entries of a walk, in walk order. */
  function CountedEntries(walk: seq<WalkItem>): (es: seq<WalkEntry>)
    ensures |es| <= |walk|
  {
    if walk == [] then []
    else
      var last := walk[|walk| - 1];
      CountedEntries(walk[..|walk| - 1]) + (if Counted(last) then [last.entry] else [])
  }

  function LenOf(e: WalkEntry): nat
  {
    if e.metadata.Some? then e.metadata.value.len else 0
  }

  function ModifiedOf(e: WalkEntry): Option<Time>
  {
    if e.metadata.Some? then e.metadata.value.modified else None
  }

  /** The sum of the metadata sizes of the entries. */
  function TotalLen(es: seq<WalkEntry>): nat
  {
    if es == [] then 0 else TotalLen(es[..|es| - 1]) + LenOf(es[|es| - 1])
  }

  /** How many of the entries the walk reports as being of the given kind. */
  function CountKind(es: seq<WalkEntry>, kind: FileKind): nat
  {
    if es == [] then 0 else CountKind(es[..|es| - 1], kind) + (if es[|es| - 1].kind == kind then 1 else 0)
  }

  /** The modification time kept by the loop: replaced whenever a strictly later one comes by. */
  function LatestModified(es: seq<WalkEntry>): Option<Time>
  {
    if es == [] then None
    else
      var before := LatestModified(es[..|es| - 1]);
      match ModifiedOf(es[|es| - 1])
      case None => before
      case Some(t) => if before.None? || t > before.value then Some(t) else before
  }

  /** `file_name`: the root's last component, or "Unknown" when it has none. */
  function FileNameText(root: Path): string
  {
    match FileName(root)
    case Some(name) => name
    case None => "Unknown"
  }

  /** The statistics of a walk rooted at `root`. */
  function StatsOf(root: Path, walk: seq<WalkItem>): FolderStats
  {
    var es := CountedEntries(walk);
    FolderStats(
      FileNameText(root),
      HumanReadableSize(TotalLen(es)),
      HumanReadableSize(TotalLen(es)),
      |es|,
      CountKind(es, File),
      CountKind(es, Dir),
      ModifiedText(LatestModified(es)))
  }

  /** `compute_folder_stats`: one pass over the whole walk, root included. */
  method ComputeFolderStats(root: Path, walk: seq<WalkItem>) returns (stats: Option<FolderStats>)
    ensures stats == Some(StatsOf(root, walk))
    ensures stats.Some? && stats.value.allocatedSize == stats.value.totalSize
  {
    var totalSize: nat := 0;
    var itemCount: nat := 0;
    var fileCount: nat := 0;
    var subdirCount: nat := 0;
    var lastModified: Option<Time> := None;
    for i := 0 to |walk|
      invariant totalSize == TotalLen(CountedEntries(walk[..i]))
      invariant itemCount == |CountedEntries(walk[..i])|
      invariant fileCount == CountKind(CountedEntries(walk[..i]), File)
      invariant subdirCount == CountKind(CountedEntries(walk[..i]), Dir)
      invariant lastModified == LatestModified(CountedEntries(walk[..i]))
    {
      CountedStep(walk, i);
      if walk[i].Visited? {
        var entry := walk[i].entry;
        if entry.metadata.None? {
          continue;
        }
        var metadata := entry.metadata.value;
        CountedTotalsStep(walk, i);
        totalSize := totalSize + metadata.len;
        itemCount := itemCount + 1;
        if entry.kind == File {
          fileCount := fileCount + 1;
        } else if entry.kind == Dir {
          subdirCount := subdirCount + 1;
        }
        if metadata.modified.Some? {
          var modified := metadata.modified.value;
          if lastModified.None? || modified > lastModified.value {
            lastModified := Some(modified);
          }
        }
      }
    }
    assert walk[..|walk|] == walk;
    var fileName := FileNameText(root);
    stats := Some(FolderStats(
      fileName,
      HumanReadableSize(totalSize),
      HumanReadableSize(totalSize),
      itemCount,
      fileCount,
      subdirCount,
      ModifiedText(lastModified)));
  }

  /** One more item of the walk adds its entry to the counted ones exactly when it is counted. */
  lemma CountedStep(walk: seq<WalkItem>, i: nat)
    requires i < |walk|
    ensures Counted(walk[i]) ==> CountedEntries(walk[..i + 1]) == CountedEntries(walk[..i]) + [walk[i].entry]
    ensures !Counted(walk[i]) ==> CountedEntries(walk[..i + 1]) == CountedEntries(walk[..i])
  {
    assert walk[..i + 1][..i] == walk[..i];
    assert CountedEntries(walk[..i]) + [] == CountedEntries(walk[..i]);
  }

  /** What one counted item adds to each quantity the statistics loop accumulates. */
  lemma CountedTotalsStep(walk: seq<WalkItem>, i: nat)
    requires i < |walk| && Counted(walk[i])
    ensures var before := CountedEntries(walk[..i]);
      var after := CountedEntries(walk[..i + 1]);
      var e := walk[i].entry;
      && |after| == |before| + 1
      && TotalLen(after) == TotalLen(before) + e.metadata.value.len
      && CountKind(after, File) == CountKind(before, File) + (if e.kind == File then 1 else 0)
      && CountKind(after, Dir) == CountKind(before, Dir) + (if e.kind == Dir then 1 else 0)
      && LatestModified(after) == match e.metadata.value.modified
           case None => LatestModified(before)
           case Some(t) =>
             if LatestModified(before).None? || t > LatestModified(before).value then Some(t)
             else LatestModified(before)
  {
    CountedStep(walk, i);
    var before := CountedEntries(walk[..i]);
    var after := before + [walk[i].entry];
    assert after[..|after| - 1] == before;
  }

  // ---------------------------------------------------------------------
  // Properties of the listing

  /** The listing of a walk is the listing of its parts, one after the other. */
  lemma {:induction false} ListingConcat(a: seq<WalkItem>, b: seq<WalkItem>)
    ensures Listing(a + b) == Listing(a) + Listing(b)
  {
    if b == [] {
      assert a + b == a;
    } else {
      var ab := a + b;
      assert ab[..|ab| - 1] == a + b[..|b| - 1];
      ListingConcat(a, b[..|b| - 1]);
    }
  }

  /** An error item, or an entry whose metadata cannot be read, adds nothing to the
      listing, and the walk goes on: the items after it are listed as without it. */
  lemma SkippedItemAddsNothing(a: seq<WalkItem>, item: WalkItem, b: seq<WalkItem>)
    requires !Listed(item)
    ensures Listing(a + [item] + b) == Listing(a) + Listing(b)
  {
    assert Listing([item]) == [] by {
      assert [item][..0] == [];
    }
    ListingConcat(a, [item]);
    ListingConcat(a + [item], b);
  }

  /** The positions of the listed items of a walk, in increasing order. */
  function ListedPositions(walk: seq<WalkItem>): seq<nat>
  {
    if walk == [] then []
    else ListedPositions(walk[..|walk| - 1]) + (if Listed(walk[|walk| - 1]) then [|walk| - 1] else [])
  }

  /** The listed positions are in range, name listable items, and increase. */
  lemma {:induction false} ListedPositionsInRange(walk: seq<WalkItem>)
    ensures var ps := ListedPositions(walk);
      && |ps| <= |walk|
      && (forall k :: 0 <= k < |ps| ==> ps[k] < |walk| && Listed(walk[ps[k]]))
      && (forall j, k :: 0 <= j < k < |ps| ==> ps[j] < ps[k])
  {
    if walk != [] {
      var init := walk[..|walk| - 1];
      ListedPositionsInRange(init);
      forall i | 0 <= i < |init| ensures walk[i] == init[i] { }
    }
  }

  /** Every listable item's position is among the listed positions. */
  lemma {:induction false} ListedPositionsComplete(walk: seq<WalkItem>)
    ensures forall i :: 0 <= i < |walk| && Listed(walk[i]) ==> i in ListedPositions(walk)
  {
    if walk != [] {
      var init := walk[..|walk| - 1];
      ListedPositionsComplete(init);
      forall i | 0 <= i < |init| ensures walk[i] == init[i] { }
    }
  }

  /** Entry k of the listing is built from the item at the k-th listed position. */
  lemma {:induction false} ListingAtPositions(walk: seq<WalkItem>)
    ensures var ps := ListedPositions(walk);
      && |Listing(walk)| == |ps|
      && (forall k :: 0 <= k < |ps| ==> ps[k] < |walk| && Listed(walk[ps[k]]) && Listing(walk)[k] == EntryOf(walk[ps[k]]))
  {
    ListedPositionsInRange(walk);
    if walk != [] {
      var init := walk[..|walk| - 1];
      ListingAtPositions(init);
      forall i | 0 <= i < |init| ensures walk[i] == init[i] { }
    }
  }

  /** The listing is a subsequence of the walk: entry k is built from the item at the
      k-th listed position, positions increase, and every listed item is present. */
  lemma ListingIsSubsequence(walk: seq<WalkItem>)
    ensures var ps := ListedPositions(walk);
      && |Listing(walk)| == |ps| <= |walk|
      && (forall k :: 0 <= k < |ps| ==> ps[k] < |walk| && Listed(walk[ps[k]]) && Listing(walk)[k] == EntryOf(walk[ps[k]]))
      && (forall j, k :: 0 <= j < k < |ps| ==> ps[j] < ps[k])
      && (forall i :: 0 <= i < |walk| && Listed(walk[i]) ==> i in ps)
  {
    ListedPositionsInRange(walk);
    ListedPositionsComplete(walk);
    ListingAtPositions(walk);
  }

  /** No entry of the listing is the root: every depth is at least 1, as long as the
      walk's depths fit the u32 the entry stores them in. */
  lemma ListingOmitsRoot(walk: seq<WalkItem>)
    requires forall i :: 0 <= i < |walk| && walk[i].Visited? ==> walk[i].entry.depth < U32Modulus
    ensures forall f :: f in Listing(walk) ==> f.depth >= 1
  {
    ListingIsSubsequence(walk);
    var ps := ListedPositions(walk);
    var listing := Listing(walk);
    forall k | 0 <= k < |listing| ensures listing[k].depth >= 1 {
      var item := walk[ps[k]];
      assert Listed(item) && listing[k] == EntryOf(item);
      var d := item.entry.depth;
      assert 1 <= d < U32Modulus;
      SmallDepthKept(d);
      EntryDepth(item);
    }
  }

  lemma SmallDepthKept(d: nat)
    requires d < U32Modulus
    ensures d % U32Modulus == d
  {
  }

  lemma EntryDepth(item: WalkItem)
    requires Listed(item)
    ensures EntryOf(item).depth == item.entry.depth % U32Modulus
  {
  }

  /** An entry as a walk from `root` yields it: its path is the root followed by `depth`
      more components, the last of which is the entry's name. */
  predicate EntryBelow(root: Path, e: WalkEntry)
  {
    && |e.path| == |root| + e.depth
    && root <= e.path
    && (e.depth >= 1 ==> e.path[|e.path| - 1] == Normal(e.name))
  }

  /** Every entry of the walk lies below `root` as the directory iterator places it. */
  predicate WalkBelow(root: Path, walk: seq<WalkItem>)
  {
    forall i :: 0 <= i < |walk| && walk[i].Visited? ==> EntryBelow(root, walk[i].entry)
  }

  /** A listed entry lies strictly below `root` and its path ends in its name. */
  predicate StrictlyBelow(root: Path, f: FileEntry)
  {
    |f.path| > |root| && root <= f.path && f.path[|f.path| - 1] == Normal(f.name)
  }

  /** In a walk from `root`, every listed entry lies strictly below the root and its path
      ends in its name. */
  lemma {:induction false} ListingBelowRoot(root: Path, walk: seq<WalkItem>)
    requires WalkBelow(root, walk)
    ensures forall f :: f in Listing(walk) ==> StrictlyBelow(root, f)
  {
    if walk != [] {
      var init := walk[..|walk| - 1];
      var last := walk[|walk| - 1];
      assert WalkBelow(root, init) by {
        forall i | 0 <= i < |init| && init[i].Visited? ensures EntryBelow(root, init[i].entry) {
          assert init[i] == walk[i];
        }
      }
      ListingBelowRoot(root, init);
      if Listed(last) {
        EntryNaming(last);
        assert EntryBelow(root, last.entry);
        assert StrictlyBelow(root, EntryOf(last));
      }
    }
  }

  /** A listed entry carries the path and name of the walk entry it comes from. */
  lemma EntryNaming(item: WalkItem)
    requires Listed(item)
    ensures EntryOf(item).path == item.entry.path && EntryOf(item).name == item.entry.name
  {
  }

  /** An entry's modification text is "Unknown" exactly when its time could not be read. */
  lemma ModifiedUnknownIffUnreadable(item: WalkItem)
    requires Listed(item)
    ensures EntryOf(item).modified == "Unknown" <==> item.entry.metadata.value.modified.None?
  {
    if item.entry.metadata.value.modified.Some? {
      TimeTextIsNotUnknown(item.entry.metadata.value.modified.value);
    }
  }

  /** An entry shows its size in the unit its metadata length calls for, and is a folder
      exactly when the walk reports a directory (a link to a directory is not one). */
  lemma EntryDescribesItem(item: WalkItem)
    requires Listed(item)
    ensures var p := ParseSize(EntryOf(item).size);
      p.Some? && p.value.unit == UnitFor(item.entry.metadata.value.len)
    ensures EntryOf(item).isFolder <==> item.entry.kind == Dir
  {
    HumanReadableSizeReadsBack(item.entry.metadata.value.len);
  }

  // ---------------------------------------------------------------------
  // Properties of the statistics

  lemma {:induction false} CountedEntriesConcat(a: seq<WalkItem>, b: seq<WalkItem>)
    ensures CountedEntries(a + b) == CountedEntries(a) + CountedEntries(b)
  {
    if b == [] {
      assert a + b == a;
    } else {
      var ab := a + b;
      assert ab[..|ab| - 1] == a + b[..|b| - 1];
      CountedEntriesConcat(a, b[..|b| - 1]);
    }
  }

  /** The counted entries are exactly the readable entries of the walk, the root included. */
  lemma {:induction false} CountedEntriesMembers(walk: seq<WalkItem>)
    ensures forall e :: e in CountedEntries(walk) <==> Visited(e) in walk && e.metadata.Some?
  {
    if walk != [] {
      var init := walk[..|walk| - 1];
      CountedEntriesMembers(init);
      assert walk == init + [walk[|walk| - 1]];
    }
  }

  /** An item that cannot be counted drops out of the counted entries, and the walk goes on. */
  lemma SkippedItemNotCounted(a: seq<WalkItem>, item: WalkItem, b: seq<WalkItem>)
    requires !Counted(item)
    ensures CountedEntries(a + [item] + b) == CountedEntries(a) + CountedEntries(b)
  {
    assert CountedEntries([item]) == [] by {
      assert [item][..0] == [];
    }
    CountedEntriesConcat(a, [item]);
    CountedEntriesConcat(a + [item], b);
  }

  /** So it leaves every figure of the statistics as it was. */
  lemma SkippedItemLeavesStats(root: Path, a: seq<WalkItem>, item: WalkItem, b: seq<WalkItem>)
    requires !Counted(item)
    ensures StatsOf(root, a + [item] + b) == StatsOf(root, a + b)
  {
    SkippedItemNotCounted(a, item, b);
    CountedEntriesConcat(a, b);
  }

  /** Files and directories together never outnumber the counted items; they account for
      all of them exactly when no counted item is of another kind. */
  lemma {:induction false} KindCountsBounded(es: seq<WalkEntry>)
    ensures CountKind(es, File) + CountKind(es, Dir) <= |es|
    ensures CountKind(es, File) + CountKind(es, Dir) == |es| <==> forall e :: e in es ==> e.kind != Other
  {
    if es != [] {
      var init := es[..|es| - 1];
      KindCountsBounded(init);
      assert es == init + [es[|es| - 1]];
    }
  }

  /** The kept time is the latest readable modification time, and there is none
      exactly when no entry has a readable one. */
  lemma {:induction false} LatestIsMaximum(es: seq<WalkEntry>)
    ensures LatestModified(es).None? <==> forall e :: e in es ==> ModifiedOf(e).None?
    ensures LatestModified(es).Some? ==>
      && (exists e :: e in es && ModifiedOf(e) == LatestModified(es))
      && (forall e :: e in es && ModifiedOf(e).Some? ==> ModifiedOf(e).value <= LatestModified(es).value)
  {
    if es != [] {
      var init := es[..|es| - 1];
      LatestIsMaximum(init);
      assert es == init + [es[|es| - 1]];
    }
  }

  /** The statistics' item count and their last-modified text, stated on the walk. */
  lemma StatsDescribeWalk(root: Path, walk: seq<WalkItem>)
    ensures var s := StatsOf(root, walk);
      && s.fileCount + s.subdirCount <= s.itemCount <= |walk|
      && s.allocatedSize == s.totalSize
      && (s.lastModified == "Unknown" <==> forall e :: e in CountedEntries(walk) ==> ModifiedOf(e).None?)
  {
    var es := CountedEntries(walk);
    KindCountsBounded(es);
    LatestIsMaximum(es);
    if LatestModified(es).Some? {
      TimeTextIsNotUnknown(LatestModified(es).value);
    }
  }

  /** The listing holds at most as many entries as the statistics count items; as many
      exactly when no counted item is at depth 0, the root the listing leaves out. */
  lemma {:induction false} ListingWithinCounted(walk: seq<WalkItem>)
    ensures |Listing(walk)| <= |CountedEntries(walk)|
    ensures |Listing(walk)| == |CountedEntries(walk)| <==> forall e :: e in CountedEntries(walk) ==> e.depth >= 1
  {
    if walk != [] {
      var init := walk[..|walk| - 1];
      ListingWithinCounted(init);
      CountedEntriesMembers(walk);
      CountedEntriesMembers(init);
      var es, es0 := CountedEntries(walk), CountedEntries(init);
      assert walk == init + [walk[|walk| - 1]];
      if Counted(walk[|walk| - 1]) {
        assert es == es0 + [walk[|walk| - 1].entry];
      } else {
        assert es == es0;
      }
    }
  }

  /** `file_name` is the root's own name when it ends in one, and "Unknown" at a filesystem root. */
  lemma FileNameOfRoot(base: Path, name: string)
    ensures FileNameText(Join(base, NamePath(name))) == name
    ensures FileNameText([RootDir]) == "Unknown"
  {
    ParentOfJoinedName(base, name);
  }

  // ---------------------------------------------------------------------
  // Scenarios

  /** An empty directory: nothing is listed; the root alone is counted, as a directory. */
  lemma EmptyDirectory(root: WalkEntry)
    requires root.depth == 0 && root.kind == Dir && root.metadata.Some?
    ensures Listing([Visited(root)]) == []
    ensures var s := StatsOf(root.path, [Visited(root)]);
      s.itemCount == 1 && s.fileCount == 0 && s.subdirCount == 1
  {
    var walk := [Visited(root)];
    assert walk[..0] == [];
    CountedRootOnly(root);
  }

  lemma CountedRootOnly(root: WalkEntry)
    requires root.kind == Dir && root.metadata.Some?
    ensures var es := CountedEntries([Visited(root)]);
      es == [root] && CountKind(es, File) == 0 && CountKind(es, Dir) == 1
  {
    var walk := [Visited(root)];
    assert walk[..0] == [];
    var es := [root];
    assert es[..0] == [];
  }

  /** A walk of the root and one listable item lists that item alone. */
  lemma TwoItemWalkListing(root: WalkEntry, file: WalkEntry)
    requires root.depth == 0
    requires Listed(Visited(file))
    ensures Listing([Visited(root), Visited(file)]) == [EntryOf(Visited(file))]
  {
    var walk := [Visited(root), Visited(file)];
    assert walk[..1] == [Visited(root)] && walk[..1][..0] == [];
    assert Listing(walk[..1]) == [];
  }

  lemma OneFileCounted(root: WalkEntry, file: WalkEntry)
    requires root.metadata.Some? && file.metadata.Some?
    ensures CountedEntries([Visited(root), Visited(file)]) == [root, file]
  {
    var walk := [Visited(root), Visited(file)];
    assert walk[..1] == [Visited(root)] && walk[..1][..0] == [];
    assert CountedEntries(walk[..1]) == [root];
  }

  /** Appending one entry adds its size and, when of the kind, one to the kind's count. */
  lemma AppendEntry(es: seq<WalkEntry>, e: WalkEntry)
    ensures TotalLen(es + [e]) == TotalLen(es) + LenOf(e)
    ensures CountKind(es + [e], File) == CountKind(es, File) + (if e.kind == File then 1 else 0)
    ensures CountKind(es + [e], Dir) == CountKind(es, Dir) + (if e.kind == Dir then 1 else 0)
  {
    assert (es + [e])[..|es|] == es;
  }

  /** The listing of a folder holding one 2048-byte file. */
  lemma OneFileListed(root: WalkEntry, file: WalkEntry)
    requires root.depth == 0
    requires file.depth == 1 && file.kind == File && file.metadata.Some? && file.metadata.value.len == 2048
    ensures var listing := Listing([Visited(root), Visited(file)]);
      |listing| == 1 && listing[0].size == "2.00 KB" && !listing[0].isFolder
  {
    TwoItemWalkListing(root, file);
    TwoKiB();
    assert EntryOf(Visited(file)).size == "2.00 KB";
  }

  /** The sums and counts over the two entries of a folder holding one file. */
  lemma OneFileTotals(root: WalkEntry, file: WalkEntry)
    requires root.kind == Dir && root.metadata.Some?
    requires file.kind == File && file.metadata.Some?
    ensures TotalLen([root, file]) == root.metadata.value.len + file.metadata.value.len
    ensures CountKind([root, file], File) == 1 && CountKind([root, file], Dir) == 1
  {
    AppendEntry([], root);
    assert [] + [root] == [root];
    AppendEntry([root], file);
    assert [root] + [file] == [root, file];
  }

  /** The statistics of a folder holding one file. */
  lemma OneFileStats(root: WalkEntry, file: WalkEntry)
    requires root.kind == Dir && root.metadata.Some?
    requires file.kind == File && file.metadata.Some?
    ensures var s := StatsOf(root.path, [Visited(root), Visited(file)]);
      && s.itemCount == 2 && s.fileCount == 1 && s.subdirCount == 1
      && s.totalSize == HumanReadableSize(root.metadata.value.len + file.metadata.value.len)
  {
    OneFileCounted(root, file);
    OneFileTotals(root, file);
  }}
