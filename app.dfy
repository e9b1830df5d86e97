/**
 * The window's state machine: the `Styling` application state of main.rs and
 * its `update` handler. `Step` is the specification of one message on the
 * state as a value; the class `Styling` holds the same fields and its methods
 * are proved to change them exactly as `Step` and `Load` say.
 *
 * What `update` gets from the outside world is a parameter (`Env`): the folder
 * the dialog returns, whether `remove_file` succeeds, the clock, and the walk
 * the scanner sees below each path.
 */
module App {
  import opened Wrappers
  import opened Decimal
  import opened Paths
  import opened Utils
  import opened Directory

  datatype Page = Home | Normal

  datatype Message =
    | FilePressed
    | FolderSelected(folder: Option<Path>)
    | SelectItem(index: nat)
    | Back
    | OpenFile(file: Path)
    | DeleteFile(file: Path)
    | SelectFile(index: nat)

  /** A reading of the monotonic clock, in nanoseconds. */
  type Instant = nat

  /** Two clicks closer together than this many nanoseconds make a double click. */
  const DoubleClickNanos: nat := 300_000_000

  /** `last.elapsed()` read at `now`; the clock never runs backwards, so it saturates at zero. */
  function Elapsed(last: Instant, now: Instant): (d: nat)
    ensures now >= last ==> d + last == now
  {
    if now >= last then now - last else 0
  }

  /** What `update` learns from outside the program. */
  datatype Env = Env(
    walkOf: Path -> seq<WalkItem>,  // the directory walk the scanner sees below a path
    picked: Option<Path>,           // the folder dialog's answer
    removes: Path -> bool,          // whether `remove_file` succeeds on a path
    now: Instant)                   // `Instant::now()`

  /** The fields of `Styling` that `update` reads or writes. */
  datatype State = State(
    selectedPath: Option<Path>,
    filesName: seq<FileEntry>,
    description: seq<string>,
    pathName: string,
    currentPage: Page,
    rootPath: Option<Path>,
    files: seq<FileEntry>,
    selectedIndex: Option<nat>,
    lastClickTime: Option<Instant>)

  /** `Styling::default()`. */
  const Initial := State(None, [], [], "", Page.Home, None, [], None, None)

  // ---------------------------------------------------------------------
  // Texts shown in the side panel

  /** The side panel after `compute_folder_stats`: seven labelled lines, or one failure line. */
  function StatsDescription(stats: Option<FolderStats>): seq<string>
  {
    match stats
    case Some(st) =>
      [ "Name: " + st.fileName,
        "Total size: " + st.totalSize,
        "Allocated size: " + st.allocatedSize,
        "Item count: " + Show(st.itemCount),
        "File count: " + Show(st.fileCount),
        "Subdirectory count: " + Show(st.subdirCount),
        "Last modified: " + st.lastModified ]
    case None => ["Failed to compute folder stats"]
  }

  /** The side panel after a double click on a file. */
  function FileDescription(e: FileEntry): seq<string>
  {
    ["Name : " + e.name + " ", "Size: " + e.size + " Mb", "Last Modified: " + e.modified]
  }

  /** `files.retain(|file| file.path != path)`. */
  function Retain(fs: seq<FileEntry>, path: Path): seq<FileEntry>
  {
    if fs == [] then []
    else Retain(fs[..|fs| - 1], path) + (if fs[|fs| - 1].path != path then [fs[|fs| - 1]] else [])
  }

  // ---------------------------------------------------------------------
  // The specification of `update`

  /** `load_folder_contents(path)` on a state, `walk` being what the scanner sees below `path`. */
  function Load(s: State, path: Path, walk: seq<WalkItem>): State
  {
    s.(selectedPath := Some(path),
       description := StatsDescription(Some(StatsOf(path, walk))),
       filesName := Listing(walk),
       pathName := Display(path))
  }

  /** `update(message)` on a state. */
  function Step(s: State, m: Message, env: Env): State
    decreases if m.FilePressed? then 1 else 0
  {
    match m
    case FilePressed => Step(s, FolderSelected(env.picked), env)
    case FolderSelected(None) => s
    case FolderSelected(Some(p)) =>
      Load(s.(currentPage := Page.Normal), p, env.walkOf(p)).(rootPath := Some(p))
    case OpenFile(_) => s
    case SelectFile(i) => s.(selectedIndex := Some(i))
    case DeleteFile(file) =>
      if s.selectedPath.Some? && env.removes(Join(s.selectedPath.value, file)) then
        s.(files := Retain(s.files, Join(s.selectedPath.value, file)))
      else s
    case SelectItem(i) =>
      if i >= |s.filesName| then s
      else
        var item := s.filesName[i];
        var clicked :=
          match s.lastClickTime
          case None => s
          case Some(last) =>
            if Elapsed(last, env.now) < DoubleClickNanos then
              if item.isFolder then
                match s.selectedPath
                case None => s
                case Some(cur) =>
                  var p := Join(cur, NamePath(item.name));
                  Load(s, p, env.walkOf(p)).(pathName := Display(p))
              else s.(description := FileDescription(item))
            else s.(selectedIndex := Some(i));
        clicked.(lastClickTime := Some(env.now))
    case Back =>
      match (s.selectedPath, s.rootPath)
      case (Some(cur), Some(root)) =>
        if cur != root && Parent(cur).Some? then
          var q := Parent(cur).value;
          Load(s, q, env.walkOf(q))
        else s
      case _ => s
  }

  /** One message together with what the world answered while it was handled. */
  datatype Event = Event(message: Message, env: Env)

  /** The state after handling the events in order. */
  function Run(s: State, events: seq<Event>): State
  {
    if events == [] then s
    else
      var e := events[|events| - 1];
      Step(Run(s, events[..|events| - 1]), e.message, e.env)
  }

  /**
   * What holds in every state the window can reach: nothing is ever put in
   * `files`; the path label names the folder shown; before a folder is chosen
   * the home page shows and nothing is listed; once one is chosen the folder
   * shown lies at or below it.
   */
  predicate Inv(s: State)
  {
    && s.files == []
    && (s.selectedPath.Some? ==> s.pathName == Display(s.selectedPath.value))
    && (s.rootPath.None? <==> s.currentPage == Page.Home)
    && (s.rootPath.None? ==> s.selectedPath.None? && s.filesName == [])
    && (s.rootPath.Some? ==> s.selectedPath.Some? && s.rootPath.value <= s.selectedPath.value)
  }

  // ---------------------------------------------------------------------
  // Properties

  /** `retain` keeps exactly the entries at another path, in their order. */
  lemma {:induction false} RetainMembers(fs: seq<FileEntry>, path: Path)
    ensures forall f :: f in Retain(fs, path) <==> f in fs && f.path != path
    ensures |Retain(fs, path)| <= |fs|
  {
    if fs != [] {
      RetainMembers(fs[..|fs| - 1], path);
      assert fs == fs[..|fs| - 1] + [fs[|fs| - 1]];
    }
  }

  /** Retaining over a list is retaining over its parts. */
  lemma {:induction false} RetainConcat(a: seq<FileEntry>, b: seq<FileEntry>, path: Path)
    ensures Retain(a + b, path) == Retain(a, path) + Retain(b, path)
  {
    if b == [] {
      assert a + b == a;
    } else {
      var ab := a + b;
      assert ab[..|ab| - 1] == a + b[..|b| - 1];
      RetainConcat(a, b[..|b| - 1], path);
    }
  }

  /** The seven stats lines carry the counts in a form that reads back. */
  lemma StatsDescriptionReadsBack(st: FolderStats)
    ensures var lines := StatsDescription(Some(st));
      && |lines| == 7
      && lines[0] == "Name: " + st.fileName
      && Read(lines[3][|"Item count: "|..]) == Some(st.itemCount)
      && Read(lines[4][|"File count: "|..]) == Some(st.fileCount)
      && Read(lines[5][|"Subdirectory count: "|..]) == Some(st.subdirCount)
  {
    var lines := StatsDescription(Some(st));
    assert lines[3][|"Item count: "|..] == Show(st.itemCount);
    assert lines[4][|"File count: "|..] == Show(st.fileCount);
    assert lines[5][|"Subdirectory count: "|..] == Show(st.subdirCount);
    ReadShow(st.itemCount);
    ReadShow(st.fileCount);
    ReadShow(st.subdirCount);
  }

  /** Every message keeps the invariant. */
  lemma StepPreservesInv(s: State, m: Message, env: Env)
    requires Inv(s)
    ensures Inv(Step(s, m, env))
    decreases if m.FilePressed? then 1 else 0
  {
    match m
    case FilePressed =>
      StepPreservesInv(s, FolderSelected(env.picked), env);
    case DeleteFile(file) =>
    case SelectItem(i) =>
      if i < |s.filesName| && s.lastClickTime.Some? && s.selectedPath.Some? {
        var cur := s.selectedPath.value;
        var p := Join(cur, NamePath(s.filesName[i].name));
        assert cur <= p;
      }
    case Back =>
      if s.selectedPath.Some? && s.rootPath.Some? {
        var cur, root := s.selectedPath.value, s.rootPath.value;
        if cur != root && Parent(cur).Some? {
          assert |root| < |cur|;
          assert root <= cur[..|cur| - 1];
        }
      }
    case _ =>
  }

  /** Every state reached from the start keeps the invariant. */
  lemma {:induction false} RunPreservesInv(events: seq<Event>)
    ensures Inv(Run(Initial, events))
  {
    if events != [] {
      RunPreservesInv(events[..|events| - 1]);
      var e := events[|events| - 1];
      StepPreservesInv(Run(Initial, events[..|events| - 1]), e.message, e.env);
    }
  }

  /** `Back` never leaves the chosen folder: in a reachable state the folder shown after it
      still lies at or below the root, and at the root it changes nothing. */
  lemma BackStaysBelowRoot(s: State, env: Env)
    requires Inv(s) && s.rootPath.Some?
    ensures var r := Step(s, Back, env);
      r.rootPath == s.rootPath && r.selectedPath.Some? && s.rootPath.value <= r.selectedPath.value
    ensures s.selectedPath == s.rootPath ==> Step(s, Back, env) == s
  {
    StepPreservesInv(s, Back, env);
  }

  /** A quick second click on a listed folder opens the current folder joined with its name. */
  lemma DoubleClickOpensFolder(s: State, i: nat, env: Env)
    requires s.selectedPath.Some?
    requires i < |s.filesName| && s.filesName[i].isFolder
    requires s.lastClickTime.Some? && Elapsed(s.lastClickTime.value, env.now) < DoubleClickNanos
    ensures var r := Step(s, SelectItem(i), env);
      && r.selectedPath == Some(s.selectedPath.value + [Component.Normal(s.filesName[i].name)])
      && r.rootPath == s.rootPath
  {
  }

  /** Back from one level below a folder at or below the root shows that folder again. */
  lemma BackFromChild(t: State, cur: Path, name: string, env: Env)
    requires t.selectedPath == Some(cur + [Component.Normal(name)])
    requires t.rootPath.Some? && t.rootPath.value <= cur
    ensures var r := Step(t, Back, env);
      && r.selectedPath == Some(cur)
      && r.filesName == Listing(env.walkOf(cur))
      && r.pathName == Display(cur)
      && r.rootPath == t.rootPath
  {
    var child := cur + [Component.Normal(name)];
    assert child[..|child| - 1] == cur;
    assert |t.rootPath.value| < |child|;
  }

  /** Opening a listed folder with a double click and then going back returns to the folder,
      its listing and its label. */
  lemma OpenThenBack(s: State, i: nat, env: Env, env2: Env)
    requires Inv(s) && s.rootPath.Some?
    requires i < |s.filesName| && s.filesName[i].isFolder
    requires s.lastClickTime.Some? && Elapsed(s.lastClickTime.value, env.now) < DoubleClickNanos
    ensures var cur := s.selectedPath.value;
      var inner := Step(s, SelectItem(i), env);
      var back := Step(inner, Back, env2);
      && inner.selectedPath == Some(cur + [Component.Normal(s.filesName[i].name)])
      && back.selectedPath == Some(cur)
      && back.filesName == Listing(env2.walkOf(cur))
      && back.pathName == Display(cur)
      && back.rootPath == s.rootPath
  {
    DoubleClickOpensFolder(s, i, env);
    BackFromChild(Step(s, SelectItem(i), env), s.selectedPath.value, s.filesName[i].name, env2);
  }

  /** A double click opens the current folder joined with the entry's bare name, so an entry
      listed from deeper down (its path is not one component below the current folder) is
      never the folder that opens. */
  lemma NestedFolderOpensElsewhere(s: State, i: nat, env: Env)
    requires Inv(s) && s.rootPath.Some?
    requires i < |s.filesName| && s.filesName[i].isFolder
    requires s.lastClickTime.Some? && Elapsed(s.lastClickTime.value, env.now) < DoubleClickNanos
    requires |s.filesName[i].path| != |s.selectedPath.value| + 1
    ensures Step(s, SelectItem(i), env).selectedPath != Some(s.filesName[i].path)
  {
    var p := Join(s.selectedPath.value, NamePath(s.filesName[i].name));
    assert |p| == |s.selectedPath.value| + 1;
  }

  /** Choosing a folder shows it as the new root, whatever was shown before; only the click
      time, the list selection and `files` carry over. */
  lemma FolderSelectedShowsRoot(s: State, t: State, p: Path, env: Env)
    requires s.files == t.files && s.selectedIndex == t.selectedIndex && s.lastClickTime == t.lastClickTime
    ensures var r := Step(s, FolderSelected(Some(p)), env);
      && r == Step(t, FolderSelected(Some(p)), env)
      && r.rootPath == r.selectedPath == Some(p)
      && r.currentPage == Page.Normal
      && r.filesName == Listing(env.walkOf(p))
      && r.pathName == Display(p)
      && r.description[0] == "Name: " + FileNameText(p)
    ensures Step(s, FilePressed, env) == (if env.picked.None? then s else Step(t, FolderSelected(env.picked), env))
  {
    StatsDescriptionReadsBack(StatsOf(p, env.walkOf(p)));
  }

  /** A delete changes nothing but `files`; since nothing is ever put there, in a reachable
      state it changes nothing at all, and the entry stays in the displayed list. */
  lemma DeleteLeavesListing(s: State, file: Path, env: Env)
    ensures var r := Step(s, DeleteFile(file), env);
      && r.(files := s.files) == s
      && (forall f :: f in r.files ==> f in s.files && (s.selectedPath.Some? && env.removes(Join(s.selectedPath.value, file)) ==> f.path != Join(s.selectedPath.value, file)))
    ensures Inv(s) ==> Step(s, DeleteFile(file), env) == s
  {
    RetainMembers(s.files, if s.selectedPath.Some? then Join(s.selectedPath.value, file) else []);
  }

  /** A successful delete of a listed entry leaves it in the displayed list. */
  lemma DeleteKeepsDeletedEntry(s: State, file: Path, env: Env, j: nat)
    requires Inv(s) && s.selectedPath.Some?
    requires env.removes(Join(s.selectedPath.value, file))
    requires j < |s.filesName| && s.filesName[j].path == Join(s.selectedPath.value, file)
    ensures var r := Step(s, DeleteFile(file), env);
      j < |r.filesName| && r.filesName[j] == s.filesName[j] && r.filesName[j].path == Join(s.selectedPath.value, file)
  {
    DeleteLeavesListing(s, file, env);
  }

  /** A delete as evidently intended: once `remove_file` succeeds, the entry at the deleted
      path leaves the displayed list. */
  function DeleteFixed(s: State, file: Path, env: Env): State
  {
    if s.selectedPath.Some? && env.removes(Join(s.selectedPath.value, file)) then
      s.(filesName := Retain(s.filesName, Join(s.selectedPath.value, file)))
    else s
  }

  /** The intended delete drops exactly the entries at the deleted path, keeps the others in
      order, changes nothing else, changes nothing when removal fails, and keeps the invariant. */
  lemma DeleteFixedDropsEntry(s: State, file: Path, env: Env)
    ensures var r := DeleteFixed(s, file, env);
      && r.(filesName := s.filesName) == s
      && (s.selectedPath.None? || !env.removes(Join(s.selectedPath.value, file)) ==> r == s)
      && (s.selectedPath.Some? && env.removes(Join(s.selectedPath.value, file)) ==>
            forall f :: f in r.filesName <==> f in s.filesName && f.path != Join(s.selectedPath.value, file))
    ensures Inv(s) ==> Inv(DeleteFixed(s, file, env))
  {
    if s.selectedPath.Some? {
      RetainMembers(s.filesName, Join(s.selectedPath.value, file));
    }
  }

  /** A delete sends the current folder joined with the entry's bare name, so for an entry
      listed from deeper down the file `remove_file` is asked to remove is another one. */
  lemma DeleteTargetsBareName(cur: Path, e: FileEntry)
    requires |e.path| != |cur| + 1
    ensures Join(cur, NamePath(e.name)) != e.path
  {
    assert |Join(cur, NamePath(e.name))| == |cur| + 1;
  }

  /** A click as evidently intended: a quick second click on a listed folder opens that
      folder's own path; every other click is handled as before. */
  function ClickFixed(s: State, i: nat, env: Env): State
  {
    if i < |s.filesName| && s.filesName[i].isFolder && s.selectedPath.Some?
       && s.lastClickTime.Some? && Elapsed(s.lastClickTime.value, env.now) < DoubleClickNanos
    then
      var p := s.filesName[i].path;
      Load(s, p, env.walkOf(p)).(lastClickTime := Some(env.now))
    else Step(s, SelectItem(i), env)
  }

  /** When the list is the listing of a walk from the current folder, the intended double
      click opens exactly the folder clicked, shows its listing and label, and keeps the
      invariant. */
  lemma ClickFixedOpensEntry(s: State, i: nat, env: Env, walk: seq<WalkItem>)
    requires Inv(s) && s.rootPath.Some?
    requires s.filesName == Listing(walk) && WalkBelow(s.selectedPath.value, walk)
    requires i < |s.filesName| && s.filesName[i].isFolder
    requires s.lastClickTime.Some? && Elapsed(s.lastClickTime.value, env.now) < DoubleClickNanos
    ensures var e := s.filesName[i];
      var r := ClickFixed(s, i, env);
      && r.selectedPath == Some(e.path)
      && r.filesName == Listing(env.walkOf(e.path))
      && r.pathName == Display(e.path)
      && Inv(r)
  {
    ListingBelowRoot(s.selectedPath.value, walk);
    assert s.filesName[i] in Listing(walk);
  }

  /** For a folder directly inside the current one, the intended double click does what
      the code does. */
  lemma ClickFixedAgreesAtDepthOne(s: State, i: nat, env: Env)
    requires s.selectedPath.Some? && i < |s.filesName|
    requires s.filesName[i].path == Join(s.selectedPath.value, NamePath(s.filesName[i].name))
    ensures ClickFixed(s, i, env) == Step(s, SelectItem(i), env)
  {
  }

  /** A click on a listed item always records its time; the first click does nothing else,
      a slow one selects the item, and a quick one on a file shows its details. */
  lemma ClickTiming(s: State, i: nat, env: Env)
    requires i < |s.filesName|
    ensures var r := Step(s, SelectItem(i), env);
      && r.lastClickTime == Some(env.now)
      && (s.lastClickTime.None? ==> r == s.(lastClickTime := Some(env.now)))
      && (s.lastClickTime.Some? && Elapsed(s.lastClickTime.value, env.now) >= DoubleClickNanos ==>
            r == s.(selectedIndex := Some(i), lastClickTime := Some(env.now)))
      && (s.lastClickTime.Some? && Elapsed(s.lastClickTime.value, env.now) < DoubleClickNanos && !s.filesName[i].isFolder ==>
            r == s.(description := FileDescription(s.filesName[i]), lastClickTime := Some(env.now)))
  {
  }

  /** Messages that leave the state as it is: a cancelled dialog, opening a file, a click
      past the end of the list; a list click changes only the selection. */
  lemma IgnoredMessages(s: State, file: Path, i: nat, env: Env)
    ensures Step(s, FolderSelected(None), env) == s
    ensures Step(s, OpenFile(file), env) == s
    ensures i >= |s.filesName| ==> Step(s, SelectItem(i), env) == s
    ensures Step(s, SelectFile(i), env) == s.(selectedIndex := Some(i))
  {
  }

  // ---------------------------------------------------------------------
  // The application object

  class Styling {
    var selectedPath: Option<Path>
    var filesName: seq<FileEntry>
    var description: seq<string>
    var pathName: string
    var currentPage: Page
    var rootPath: Option<Path>
    var files: seq<FileEntry>
    var selectedIndex: Option<nat>
    var lastClickTime: Option<Instant>

    /** The fields as a `State` value. */
    function Snapshot(): State
      reads this
    {
      State(selectedPath, filesName, description, pathName, currentPage, rootPath, files, selectedIndex, lastClickTime)
    }

    /** `Styling::default()`. */
    constructor ()
      ensures Snapshot() == Initial && Inv(Snapshot())
    {
      selectedPath := None;
      filesName := [];
      description := [];
      pathName := "";
      currentPage := Page.Home;
      rootPath := None;
      files := [];
      selectedIndex := None;
      lastClickTime := None;
    }

    /** `load_folder_contents`: shows `path`, its statistics and its listing. */
    method LoadFolderContents(path: Path, walkOf: Path -> seq<WalkItem>)
      modifies this
      ensures Snapshot() == Load(old(Snapshot()), path, walkOf(path))
    {
      selectedPath := Some(path);
      var stats := ComputeFolderStats(path, walkOf(path));
      description := StatsDescription(stats);
      filesName := ScanDirectory(walkOf(path));
      pathName := Display(path);
    }

    /** `update`: handles one message. */
    method Update(m: Message, env: Env)
      modifies this
      ensures Snapshot() == Step(old(Snapshot()), m, env)
      ensures Inv(old(Snapshot())) ==> Inv(Snapshot())
      decreases if m.FilePressed? then 1 else 0
    {
      if Inv(Snapshot()) {
        StepPreservesInv(Snapshot(), m, env);
      }
      match m {
        case FilePressed =>
          Update(FolderSelected(env.picked), env);
        case FolderSelected(None) =>
        case FolderSelected(Some(p)) =>
          OpenRoot(p, env);
        case OpenFile(_) =>
        case SelectFile(i) =>
          selectedIndex := Some(i);
        case DeleteFile(file) =>
          Delete(file, env);
        case SelectItem(i) =>
          Click(i, env);
        case Back =>
          GoBack(env);
      }
    }

    /** The `FolderSelected(Some(path))` arm: the chosen folder becomes root and current. */
    method OpenRoot(p: Path, env: Env)
      modifies this
      ensures Snapshot() == Step(old(Snapshot()), FolderSelected(Some(p)), env)
    {
      selectedPath := Some(p);
      currentPage := Page.Normal;
      filesName := ScanDirectory(env.walkOf(p));
      pathName := Display(p);
      LoadFolderContents(p, env.walkOf);
      rootPath := Some(p);
    }

    /** The `DeleteFile` arm. */
    method Delete(file: Path, env: Env)
      modifies this
      ensures Snapshot() == Step(old(Snapshot()), DeleteFile(file), env)
    {
      if selectedPath.Some? {
        var fullPath := Join(selectedPath.value, file);
        if env.removes(fullPath) {
          files := Retain(files, fullPath);
        }
      }
    }

    /** The `SelectItem` arm: single and double clicks on a listed item. */
    method Click(i: nat, env: Env)
      modifies this
      ensures Snapshot() == Step(old(Snapshot()), SelectItem(i), env)
    {
      if i < |filesName| {
        var item := filesName[i];
        if lastClickTime.Some? {
          if Elapsed(lastClickTime.value, env.now) < DoubleClickNanos {
            if item.isFolder {
              if selectedPath.Some? {
                var p := Join(selectedPath.value, NamePath(item.name));
                LoadFolderContents(p, env.walkOf);
                pathName := Display(p);
              }
            } else {
              description := FileDescription(item);
            }
          } else {
            selectedIndex := Some(i);
          }
        }
        lastClickTime := Some(env.now);
      }
    }

    /** The `Back` arm: up to the parent, never past the root. */
    method GoBack(env: Env)
      modifies this
      ensures Snapshot() == Step(old(Snapshot()), Back, env)
    {
      if selectedPath.Some? && rootPath.Some? && selectedPath.value != rootPath.value {
        var parent := Parent(selectedPath.value);
        if parent.Some? {
          selectedPath := Some(parent.value);
          LoadFolderContents(parent.value, env.walkOf);
        }
      }
    }
  }
}
