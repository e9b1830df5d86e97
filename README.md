# Disk scanner: a Dafny model of its core

The disk scanner is a desktop program. It lets the user pick a folder, lists
everything below that folder with sizes and modification times, summarises
the folder in a side panel, and lets the user walk down into sub-folders and
back up again. This project models three parts of it and proves properties
about each:

- **The formatters** (`src/scanner/utils.rs`), in `utils.dfy`.
  - `human_readable_size` is modelled down to the float arithmetic. A `u64` is
    converted to `f64` by rounding to nearest with ties to even, using a 53-bit
    significand. Dividing by 2^10, 2^20 or 2^30 is then exact. `{:.2}` prints
    the exact value rounded to hundredths, with ties to even.
  - `human_readable_time` renders `%d/%m/%Y %H:%M:%S` in UTC. The date comes
    from the proleptic Gregorian calendar, counted from whole seconds since
    the epoch.
  - Integer `{}` rendering, and a reader for it, are in `decimal.dfy`.
- **The two directory walks** (`src/scanner/directory.rs`), in `directory.dfy`.
  - A walk is given as the sequence of items the directory iterator yields.
    Each item is either an error or an entry carrying its path, name, depth,
    kind and the outcome of reading its metadata.
  - `ScanDirectory` and `ComputeFolderStats` are loops over that sequence. Each
    is proved equal to a specification function (`Listing`, `StatsOf`), and the
    properties of the walk are proved about those functions.
- **The window's state machine** (`src/main.rs`: `Page`, `Message`, the
  `Styling` fields, `update` and `load_folder_contents`), in `app.dfy`.
  - `Step` is one message applied to the state as a value.
  - The class `Styling` holds the same fields. Its `Update` and
    `LoadFolderContents` methods are proved to change them exactly as `Step`
    and `Load` say.
  - Everything `update` learns from outside is an `Env` value:
    - the folder the dialog returns;
    - whether `remove_file` succeeds;
    - the clock;
    - the walk seen below each path.
- **Paths** (`PathBuf`) are sequences of components, in `paths.dfy`. Only
  `join`, `parent`, `file_name` and `to_string_lossy` are modelled.

Behaviour of the code that the model makes explicit (the first two items are
also in "## Findings", each with the intended behaviour proved):

- **Deleting a file never changes the displayed list.** `DeleteFile` removes
  the entry from the `files` field (main.rs:126). Nothing ever puts anything
  into `files`: it is only defaulted and filtered. The list the window shows
  is `files_name`. So a successful delete leaves the state unchanged in every
  reachable state (`DeleteLeavesListing`, `DeleteKeepsDeletedEntry`). The
  Delete button sends the entry's bare name (main.rs:388), so for an entry
  listed from deeper down the file removed is the current folder joined with
  that name, which can be another file (`DeleteTargetsBareName`).
- **A double click can open the wrong folder.** The listing is recursive: it
  has no maximum depth. A double click, however, opens the current folder
  joined with the entry's bare name (main.rs:139). A folder listed from
  deeper down is therefore never the one that opens
  (`NestedFolderOpensElsewhere`).
- **Rounding can show the next unit's value in the smaller unit.** The size
  formatter picks the unit before rounding. So 1048575 bytes shows as
  "1024.00 KB" (`RoundingReachesNextUnit`).
- **Choosing a new folder keeps some old state.** The list selection
  (`selected_index`) and the click time carry over
  (`FolderSelectedShowsRoot`).

## Model

| member | source | states |
|---|---|---|
| Decimal.Show | src/scanner/utils.rs:12 | `{}` of an unsigned integer is a non-empty digit string, with a leading zero only for 0 and one digit exactly below 10 |
| Decimal.ValueShow | src/scanner/utils.rs:12 | the digits `{}` prints have exactly the value printed |
| Decimal.ReadShow | src/main.rs:493-495 | reading back the rendering of a count gives the count |
| Decimal.ShowInjective | src/main.rs:493-495 | different counts never render the same |
| Decimal.Read | src/main.rs:493-495 | a successful read comes only from a non-empty digit string |
| Utils.HumanReadableSize | src/scanner/utils.rs:4-14 | `human_readable_size`, the four-branch formatter; its unit and its text are stated by UnitForThresholds, HumanReadableSizeReadsBack and ScaledSizeValue |
| Utils.AsF64 | src/scanner/utils.rs:6-10 | the `size as f64` cast, rounding to a 53-bit significand with ties to even; stated by AsF64Exact, ExcessQuotient and AsF64AtLeastGiB |
| Utils.TwoDecimals | src/scanner/utils.rs:6-10 | `{:.2}` of the quotient by the unit; its text and value are stated by TwoDecimalsValue |
| Utils.RoundHalfEven | src/scanner/utils.rs:6-10 | rounding a quotient gives the floor or the floor plus one |
| Utils.RoundHalfEvenNearest | src/scanner/utils.rs:6-10 | the rounded quotient is within half a unit of the exact one, and ties go to the even value |
| Utils.AsF64Exact | src/scanner/utils.rs:6-10 | `size as f64` is exact below 2^53 |
| Utils.AsF64AtLeastGiB | src/scanner/utils.rs:5-6 | rounding to `f64` never takes a size of at least 1 GiB below 1 GiB, so the GB branch always shows at least 1.00 |
| Utils.ExcessQuotient | src/scanner/utils.rs:6 | the significand kept when rounding a large size to `f64` is at least 2^52, so it has at least 53 significant bits |
| Utils.TwoDecimalsValue | src/scanner/utils.rs:6-10 | `{:.2}` of a scaled size is digits, a point and two digits whose value in hundredths is the correctly rounded quotient |
| Utils.ParseSize | src/scanner/utils.rs:4-14 | a parsed size text is exactly its number followed by its unit suffix |
| Utils.ParseScaled | src/scanner/utils.rs:6-10 | a fixed-point number with a KB/MB/GB suffix parses back into that number and unit |
| Utils.ParseBytes | src/scanner/utils.rs:12 | a digit string with " B" parses back into that number and B |
| Utils.UnitForThresholds | src/scanner/utils.rs:5-12 | the unit is B below 1024, KB below 2^20, MB below 2^30, and GB from 2^30 on, each as an if-and-only-if |
| Utils.ScaledValueInRange | src/scanner/utils.rs:5-12 | the unit's scale is at most the size, and the size is below 1024 scales except in GB |
| Utils.Log1024Monotone | src/scanner/utils.rs:5-12 | the number of factors of 1024 in a size never decreases as the size grows |
| Utils.UnitMonotone | src/scanner/utils.rs:5-12 | a larger size never gets a smaller unit |
| Utils.HumanReadableSizeReadsBack | src/scanner/utils.rs:4-14 | every size text parses, with the unit the thresholds choose; in B it reads back as the exact size, and otherwise its number has two decimals and reads back as the `f64` value of the size divided by the unit, rounded to hundredths with ties to even |
| Utils.ScaledSizeValue | src/scanner/utils.rs:4-10 | for a size from 1 KiB up to 2^53 bytes, the text reads back as the size itself divided by the unit, rounded to hundredths with ties to even |
| Utils.HundredthsRange | src/scanner/utils.rs:6-10 | a quotient of at least one unit rounds to at least 100 hundredths, and one below 1024 units to at most 102400 |
| Utils.ScaledNumberRange | src/scanner/utils.rs:5-10 | a scaled size shows at least 1.00, and at most 1024.00 below 1 GiB |
| Utils.RoundingReachesNextUnit | src/scanner/utils.rs:9-10 | 1048575 bytes renders as "1024.00 KB" |
| Utils.ByteExamples | src/scanner/utils.rs:11-12 | 0 and 1023 bytes render as "0 B" and "1023 B" |
| Utils.ScaledExamples | src/scanner/utils.rs:5-10 | 1024, 2048, 2^20 and 2^30 bytes render as "1.00 KB", "2.00 KB", "1.00 MB" and "1.00 GB" |
| Utils.CivilFromDays | src/scanner/utils.rs:17-19 | the calendar date of a day has a month in 1..12 and a day in 1..31 |
| Utils.CivilExample | src/scanner/utils.rs:17-19 | day 18629 after the epoch is 2 January 2021 |
| Utils.TimeExample | src/scanner/utils.rs:17-20 | any time in the second 1609556645 after the epoch renders as "02/01/2021 03:04:05" |
| Utils.HumanReadableTime | src/scanner/utils.rs:17-20 | `human_readable_time`, `%d/%m/%Y %H:%M:%S` in UTC; stated by TimeTextIsNotUnknown, TimeExample and CivilFromDays |
| Utils.TimeTextIsNotUnknown | src/scanner/utils.rs:17-20 | a rendered time starts with a digit, so it is never the "Unknown" placeholder |
| Paths.Join | src/main.rs:117 | joining an absolute path gives that path; otherwise the base is a prefix and the rest is the joined path |
| Paths.Parent | src/main.rs:167 | the parent is the path less its last component, and there is none exactly for an empty path or one ending at the root |
| Paths.Display | src/main.rs:510 | `to_string_lossy` of a path; stated by DisplayPrefix and DisplayJoinName |
| Paths.DisplayPrefix | src/main.rs:510 | the label of a folder begins with the label of every folder above it |
| Paths.DisplayJoinName | src/main.rs:139-142 | the label after a double click is the old label, a `/` unless the old path ends at the root, and the folder name |
| Paths.FileName | src/scanner/directory.rs:92 | the file name exists exactly when the last component is a normal one |
| Paths.ParentOfJoinedName | src/main.rs:139 | going into a name and then to the parent returns to where one started, and the name is the file name of the joined path |
| Directory.EntryOf | src/scanner/directory.rs:39-53 | the `FileEntry` built for one listed item; stated by EntryDescribesItem and ModifiedUnknownIffUnreadable |
| Directory.Listing | src/scanner/directory.rs:27-57 | the listing `scan_directory` returns, as a function of the walk; stated by ScanDirectory, ListingIsSubsequence, ListingOmitsRoot and ListingBelowRoot |
| Directory.ScanDirectory | src/scanner/directory.rs:27-57 | the loop builds exactly the listing of the walk |
| Directory.ListingConcat | src/scanner/directory.rs:29-55 | the listing of a walk is the listing of its parts, in order |
| Directory.SkippedItemAddsNothing | src/scanner/directory.rs:30-37 | an error item, or an entry whose metadata cannot be read, adds nothing and does not stop the walk |
| Directory.ListingIsSubsequence | src/scanner/directory.rs:29-55 | the listing keeps walk order: entry k comes from the k-th listed item, positions increase, and every listable item is there |
| Directory.ListedPositionsInRange | src/scanner/directory.rs:29-55 | the positions of listed items are in range, name listable items and strictly increase |
| Directory.ListedPositionsComplete | src/scanner/directory.rs:29-55 | every listable item's position is among the listed positions |
| Directory.ListingAtPositions | src/scanner/directory.rs:46-53 | the listing has one entry per listed position, built from the item there |
| Directory.ListingOmitsRoot | src/scanner/directory.rs:29-31 | when every depth fits in a u32, no listed entry has depth 0, so the root itself is never listed |
| Directory.ListingBelowRoot | src/scanner/directory.rs:29-54 | in a walk whose entries lie below the root as the iterator places them, every listed entry lies strictly below the root and its path ends in its name |
| Directory.ModifiedUnknownIffUnreadable | src/scanner/directory.rs:41-44 | an entry's time is "Unknown" exactly when its modification time cannot be read |
| Directory.EntryDescribesItem | src/scanner/directory.rs:32-52 | an entry's size text parses with the unit its byte count calls for, and it is a folder exactly when the walk reports a directory |
| Directory.CountedEntries | src/scanner/directory.rs:68-73 | the entries counted are no more than the items walked |
| Directory.StatsOf | src/scanner/directory.rs:61-109 | the statistics `compute_folder_stats` returns, as a function of the walk; stated by ComputeFolderStats, StatsDescribeWalk and SkippedItemLeavesStats |
| Directory.ComputeFolderStats | src/scanner/directory.rs:61-109 | the loop's totals are exactly the statistics of the walk, and allocated size equals total size |
| Directory.CountedEntriesConcat | src/scanner/directory.rs:68-90 | the counted entries of a walk are those of its parts, in order |
| Directory.CountedEntriesMembers | src/scanner/directory.rs:69-73 | an entry is counted exactly when it is visited and its metadata can be read |
| Directory.SkippedItemNotCounted | src/scanner/directory.rs:69-73 | a skipped item contributes no counted entry |
| Directory.SkippedItemLeavesStats | src/scanner/directory.rs:69-73 | the statistics of a walk do not change when a skipped item is added anywhere in it |
| Directory.KindCountsBounded | src/scanner/directory.rs:76-82 | files plus sub-directories are at most the item count, with equality exactly when no counted entry is of another kind |
| Directory.LatestModified | src/scanner/directory.rs:84-88 | the modification time the loop keeps; stated by LatestIsMaximum |
| Directory.LatestIsMaximum | src/scanner/directory.rs:84-88 | the latest time is absent exactly when no counted entry has one; otherwise it is one of their times and none is later |
| Directory.StatsDescribeWalk | src/scanner/directory.rs:61-109 | file and folder counts fit within the item count, which fits within the walk; allocated equals total; last modified is "Unknown" exactly when no counted entry has a time |
| Directory.ListingWithinCounted | src/scanner/directory.rs:29-37 | the listing is never longer than the counted entries, and is as long exactly when no counted entry is at depth 0 |
| Directory.FileNameText | src/scanner/directory.rs:92-95 | the folder name of the statistics; stated by FileNameOfRoot |
| Directory.FileNameOfRoot | src/scanner/directory.rs:92-95 | the folder name is the last name joined, and "Unknown" for the filesystem root |
| Directory.EmptyDirectory | src/scanner/directory.rs:27-109 | an empty folder lists nothing and counts itself as one item and one sub-directory |
| Directory.OneFileListed | src/scanner/directory.rs:27-57 | a folder with one 2048-byte file lists that file alone, with its size shown as "2.00 KB" |
| Directory.OneFileStats | src/scanner/directory.rs:61-109 | the same folder's total size is the formatted sum of the lengths of the folder and the file |
| App.Retain | src/main.rs:126 | `files.retain(...)`; stated by RetainMembers and RetainConcat |
| App.RetainMembers | src/main.rs:126 | `retain` keeps exactly the entries at another path, and never grows the list |
| App.RetainConcat | src/main.rs:126 | `retain` over a list is `retain` over its parts |
| App.StatsDescription | src/main.rs:487-500 | the side panel after `compute_folder_stats`; stated by StatsDescriptionReadsBack |
| App.Load | src/main.rs:483-511 | `load_folder_contents` on the state; stated by Styling.LoadFolderContents, FolderSelectedShowsRoot and BackFromChild |
| App.StatsDescriptionReadsBack | src/main.rs:487-497 | the stats panel has seven lines, opens with the folder name, and its three count lines read back as the counts |
| App.Step | src/main.rs:67-180 | `update`, one message on the state; stated by Styling.Update, StepPreservesInv, RunPreservesInv and the scenario lemmas below |
| App.StepPreservesInv | src/main.rs:67-180 | every message keeps the invariant: `files` empty, the label naming the folder shown, home page exactly before a folder is chosen, and the folder shown at or below the chosen root |
| App.RunPreservesInv | src/main.rs:50-180 | every state reached from the default state by any sequence of messages satisfies the invariant |
| App.BackStaysBelowRoot | src/main.rs:162-178 | Back keeps the root and never shows a folder above it, and at the root it changes nothing |
| App.OpenThenBack | src/main.rs:132-178 | a double click into a listed folder opens the current folder joined with its name, and Back then returns to the previous folder, its listing and its label |
| App.DoubleClickOpensFolder | src/main.rs:136-145 | a quick second click on a listed folder shows the current folder joined with the folder's name, keeping the root |
| App.BackFromChild | src/main.rs:162-178 | Back from one level below a folder at or below the root shows that folder, its listing and its label again |
| App.NestedFolderOpensElsewhere | src/main.rs:136-145 | a folder listed more than one level down is never the folder a double click opens |
| App.FolderSelectedShowsRoot | src/main.rs:69-88 | choosing a folder makes it root and current, shows its listing, label and name, and depends on the old state only through `files`, the selection and the click time; cancelling the dialog changes nothing |
| App.DeleteLeavesListing | src/main.rs:114-131 | a delete changes only `files`, keeping only entries at another path when removal succeeds; in a reachable state it changes nothing |
| App.DeleteKeepsDeletedEntry | src/main.rs:114-131 | after a successful delete of a listed entry in a reachable state, the entry is still displayed at the same position |
| App.DeleteFixedDropsEntry | src/main.rs:114-131 | the intended delete, on success, displays exactly the other entries and changes nothing else; on failure it changes nothing; it keeps the invariant |
| App.DeleteTargetsBareName | src/main.rs:116-117 | for an entry not directly inside the current folder, the path a delete removes is not the entry's own path |
| App.ClickFixedOpensEntry | src/main.rs:132-145 | the intended double click on a folder listed from a walk of the current folder opens that folder's own path, shows its listing and label, and keeps the invariant |
| App.ClickFixedAgreesAtDepthOne | src/main.rs:132-145 | for a folder directly inside the current one, the intended double click does exactly what the code does |
| App.FileDescription | src/main.rs:145-149 | the side panel after a double click on a file; stated by ClickTiming |
| App.ClickTiming | src/main.rs:132-160 | a click on a listed item records its time; a first click does nothing else, a slow click only selects, and a quick click on a file only shows its details |
| App.IgnoredMessages | src/main.rs:90-112 | a cancelled dialog, opening a file and a click past the list's end leave the state unchanged, and selecting a file changes only the selection |
| App.Styling.constructor | src/main.rs:50-64 | the default state satisfies the invariant |
| App.Styling.LoadFolderContents | src/main.rs:483-511 | the fields change exactly as `Load`: the folder, the stats panel, the listing and the label |
| App.Styling.Update | src/main.rs:67-180 | the fields change exactly as `Step`, and the invariant is kept |
| App.Styling.OpenRoot | src/main.rs:73-88 | the fields change exactly as `Step` says for a chosen folder |
| App.Styling.Delete | src/main.rs:114-131 | the fields change exactly as `Step` says for a delete |
| App.Styling.Click | src/main.rs:132-160 | the fields change exactly as `Step` says for a click on the list |
| App.Styling.GoBack | src/main.rs:162-178 | the fields change exactly as `Step` says for Back |

## Findings

| source | as written | input that shows it | evidently intended | confidence | as-written member | corrected member |
|---|---|---|---|---|---|---|
| src/main.rs:114-131 | a successful delete filters `files`, which is always empty, so the displayed `files_name` keeps the deleted entry | folder `/d` selected and listing `/d/a.txt`; Delete on `a.txt` with `remove_file` succeeding; `a.txt` is still listed | drop the entry at the removed path from `files_name` | not executed | App.DeleteKeepsDeletedEntry | App.DeleteFixedDropsEntry |
| src/main.rs:132-145 | a double click on a folder opens the current folder joined with the entry's bare name | folder `/d` selected and listing `/d/x/y` as folder `y`; a quick second click on it opens `/d/y` | open the clicked entry's own path | not executed | App.NestedFolderOpensElsewhere | App.ClickFixedOpensEntry |

## Left out

- The view code is not modelled: `view`, `view_home`, `view_normal`, `theme`, the styles and the images. Those are presentation only. So are the `theme`, `total` and `usage_percentage` fields.
- `drive_usage` (src/scanner/stats.rs) is not part of this model. It is a stub that the core only passes through. Its description, written in `FolderSelected`, is always overwritten by `load_folder_contents`.
- src/scanner/actions.rs and src/scanner/mod.rs are not part of this model. They are not on the core's paths.
- Outside effects are `Env` inputs:
  - the folder dialog, `open::that`, `std::fs::remove_file` and `Instant::now`;
  - the directory tree the walks see;
  - logging with `println!`, which is left out.
- App.IgnoredMessages: `OpenFile` is modelled only as leaving the state unchanged. The file the OS opens is not modelled.
- The model assumes the listing walk and the stats walk see the same tree, each given as one sequence per path. Changes to the filesystem between the two walks are not modelled.
- Directory.ScanDirectory: `min_depth(1)` is modelled as skipping depth-0 items inside the loop. It is not modelled as a property of the iterator.
- File kinds and metadata outcomes are separate inputs of each walk entry, and the model does not relate them. For a symbolic link, `file_type()` describes the link itself while `fs::metadata` follows it; which target a link has is not modelled.
- Sizes and counts are unbounded naturals: `u64`/`usize` overflow of `total_size` is not modelled.
- Paths are sequences of components:
  - non-UTF-8 names are not modelled, so `to_string_lossy` and `to_str` never fail;
  - Windows prefixes are not modelled;
  - a name joined by a double click or a delete is taken to be one normal component.
- App.Elapsed: the double-click test compares whole nanoseconds with 300 ms. `as_secs_f32` rounds elapsed times within 16 nanoseconds below 300 ms up to 0.3, so the source does not take them for a double click, while the model does.
- Utils.CivilFromDays: the bounds on month and day are proved, but not the round trip with the inverse calendar computation.
- Utils.HumanReadableTime: converting the `SystemTime` into a chrono date (utils.rs:18) panics for instants outside chrono's range, about 262143 years either side of year 0. The model renders every instant instead.
- Utils.HumanReadableTime: chrono's rendering of years outside 0..9999 is modelled as a sign followed by at least four digits. No property beyond the first character is proved for such years.
