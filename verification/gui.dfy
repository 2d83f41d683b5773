/** The GUI's non-drawing logic (kernel/src/gui/mod.rs): the file manager's
    navigation history and the paths it opens, window hit tests, the
    desktop's window list, and the toolbar path box. */
module Gui {
  import opened Common
  import opened VfsPath
  import KShell

  // ---------------------------------------------------------------------
  // File manager

  datatype FileEntry = FileEntry(name: string, isDir: bool)

  /** `FileManagerState`: the directory shown, its entries, the selection,
      and the back/forward history with its cursor `history_index`. */
  datatype FileManager = FileManager(
    current: string,
    files: seq<FileEntry>,
    selected: Option<nat>,
    history: seq<string>,
    index: nat,
    scroll: nat)

  /** The history is never empty, its cursor is on an entry, and that entry
      is the directory shown. */
  predicate HistoryOk(fm: FileManager)
  {
    |fm.history| >= 1 && fm.index < |fm.history| && fm.current == fm.history[fm.index]
  }

  /** `readdir`'s answer for a directory (no entries when it fails). */
  type Listing = string -> seq<FileEntry>

  /** The entries the file manager lists: all but "." and "..". */
  function Shown(entries: seq<FileEntry>): (r: seq<FileEntry>)
    ensures forall k :: 0 <= k < |r| ==> r[k].name != "." && r[k].name != ".."
    ensures forall e :: e in r <==> e in entries && e.name != "." && e.name != ".."
  {
    if entries == [] then []
    else
      var rest := Shown(entries[1..]);
      if entries[0].name == "." || entries[0].name == ".." then rest else [entries[0]] + rest
  }

  /** `refresh_files`: lists the current directory and clears the
      selection and scroll. */
  function Refresh(fm: FileManager, ls: Listing): (r: FileManager)
    ensures r.current == fm.current && r.history == fm.history && r.index == fm.index
    ensures r.selected.None? && r.scroll == 0
  {
    fm.(files := Shown(ls(fm.current)), selected := None, scroll := 0)
  }

  /** `FileManagerState::new`. */
  function NewFileManager(path: string, ls: Listing): (r: FileManager)
    ensures HistoryOk(r) && r.history == [path] && r.current == path
  {
    Refresh(FileManager(path, [], None, [path], 0, 0), ls)
  }

  /** `navigate_to`: the entries after the cursor are dropped, the path is
      appended, and the cursor points at it. */
  function NavigateTo(fm: FileManager, path: string, ls: Listing): (r: FileManager)
    requires |fm.history| >= 1
    ensures HistoryOk(r) && r.current == path
    ensures HistoryOk(fm) ==> r.history == fm.history[..fm.index + 1] + [path] && r.index == fm.index + 1
  {
    var h := if fm.index < |fm.history| - 1 then fm.history[..fm.index + 1] else fm.history;
    var h' := h + [path];
    Refresh(fm.(current := path, history := h', index := |h'| - 1), ls)
  }

  /** `go_back`: moves the cursor one entry back, if there is one. */
  function GoBack(fm: FileManager, ls: Listing): (r: (FileManager, bool))
    requires fm.index <= |fm.history|
    ensures r.0.history == fm.history
    ensures r.1 <==> fm.index > 0
    ensures !r.1 ==> r.0 == fm
    ensures r.1 ==> r.0.index == fm.index - 1
    ensures HistoryOk(fm) ==> HistoryOk(r.0)
  {
    if fm.index > 0 then
      (Refresh(fm.(index := fm.index - 1, current := fm.history[fm.index - 1]), ls), true)
    else (fm, false)
  }

  /** `go_forward`: moves the cursor one entry forward, if there is one. */
  function GoForward(fm: FileManager, ls: Listing): (r: (FileManager, bool))
    requires |fm.history| >= 1
    ensures r.0.history == fm.history
    ensures r.1 <==> fm.index < |fm.history| - 1
    ensures !r.1 ==> r.0 == fm
    ensures r.1 ==> r.0.index == fm.index + 1
    ensures HistoryOk(fm) ==> HistoryOk(r.0)
  {
    if fm.index < |fm.history| - 1 then
      (Refresh(fm.(index := fm.index + 1, current := fm.history[fm.index + 1]), ls), true)
    else (fm, false)
  }

  /** Going back after navigating returns to where navigation started, and
      going forward from there returns to the new directory. */
  lemma NavigateThenBack(fm: FileManager, path: string, ls: Listing)
    requires HistoryOk(fm)
    ensures var n := NavigateTo(fm, path, ls);
      var (b, ok) := GoBack(n, ls);
      && ok && b.index == fm.index && b.current == fm.current
      && GoForward(b, ls).1 && GoForward(b, ls).0.current == path
  {
    var n := NavigateTo(fm, path, ls);
    assert n.history[fm.index] == fm.history[fm.index];
  }

  /** Forward undoes a successful back. */
  lemma BackThenForward(fm: FileManager, ls: Listing)
    requires HistoryOk(fm) && fm.index > 0
    ensures var (b, _) := GoBack(fm, ls);
      var (f, ok) := GoForward(b, ls);
      ok && f.index == fm.index && f.current == fm.current && f.history == fm.history
  {
  }

  /** The path of an entry named `name` in directory `cur`. */
  function ChildPath(cur: string, name: string): string
  {
    if cur == "/" then "/" + name else cur + "/" + name
  }

  /** The components of a path: its slash-separated pieces without the
      empty ones. */
  function NonEmpty(parts: seq<string>): (r: seq<string>)
    ensures forall k :: 0 <= k < |r| ==> r[k] != ""
  {
    if parts == [] then []
    else if parts[0] == "" then NonEmpty(parts[1..])
    else [parts[0]] + NonEmpty(parts[1..])
  }

  /** The parent directory `open_selected` computes for "..": the
      components without the last, under "/". */
  function ParentPath(cur: string): string
  {
    var parts := NonEmpty(Split(cur));
    var q := if parts == [] then [] else parts[..|parts| - 1];
    if q == [] then "/" else "/" + Join(q)
  }

  /** Where opening the entry `name` from directory `cur` goes. */
  function OpenPath(cur: string, name: string): string
  {
    if cur == "/" then
      if name == ".." then "/" else if name == "." then cur else "/" + name
    else if name == ".." then ParentPath(cur)
    else if name == "." then cur
    else ChildPath(cur, name)
  }

  /** `get_selected_file_path`: the path of the selected entry when it is a
      file. */
  function SelectedFilePath(fm: FileManager): (r: Option<string>)
    ensures r.Some? <==> (fm.selected.Some? && fm.selected.value < |fm.files|
      && !fm.files[fm.selected.value].isDir)
    ensures r.Some? ==> r.value == ChildPath(fm.current, fm.files[fm.selected.value].name)
  {
    match fm.selected
    case None => None
    case Some(i) =>
      if i < |fm.files| && !fm.files[i].isDir then Some(ChildPath(fm.current, fm.files[i].name)) else None
  }

  /** `open_selected`: a selected directory is navigated to. */
  function OpenSelected(fm: FileManager, ls: Listing): (r: (FileManager, bool))
    requires |fm.history| >= 1
    ensures r.1 <==> (fm.selected.Some? && fm.selected.value < |fm.files|
      && fm.files[fm.selected.value].isDir)
    ensures !r.1 ==> r.0 == fm
    ensures r.1 ==> r.0 == NavigateTo(fm, OpenPath(fm.current, fm.files[fm.selected.value].name), ls)
  {
    match fm.selected
    case None => (fm, false)
    case Some(i) =>
      if i < |fm.files| && fm.files[i].isDir then
        (NavigateTo(fm, OpenPath(fm.current, fm.files[i].name), ls), true)
      else (fm, false)
  }

  lemma {:induction false} NonEmptyClean(xs: seq<string>)
    requires KShell.AllClean(xs)
    ensures NonEmpty(xs) == xs
  {
    if xs != [] {
      assert KShell.AllClean(xs[1..]) by {
        forall k | 0 <= k < |xs[1..]| ensures KShell.Clean(xs[1..][k]) {
          assert xs[1..][k] == xs[k + 1];
        }
      }
      NonEmptyClean(xs[1..]);
      assert xs == [xs[0]] + xs[1..];
    }
  }

  /** The components of a normal directory path are its parts. */
  lemma ComponentsOfNormal(cur: string)
    requires KShell.Normal(cur) && cur != "/"
    ensures NonEmpty(Split(cur)) == KShell.Parts(cur)
  {
    KShell.PartsOfNormal(cur);
    var cs := KShell.Parts(cur);
    assert ([""] + cs)[1..] == cs;
    NonEmptyClean(cs);
  }

  /** From a normal directory, ".." opens the directory the kernel shell's
      `normalize_path` gives for "cur/..". */
  lemma OpenParentAgrees(cur: string)
    requires KShell.Normal(cur)
    ensures OpenPath(cur, "..") == KShell.NormalizePath(cur + "/..")
  {
    KShell.NormalizeAppend(cur, "..");
    assert cur + "/" + ".." == cur + "/..";
    if cur != "/" {
      ComponentsOfNormal(cur);
    }
  }

  /** From a normal directory, a clean name opens (or, for a file, names)
      the normal path `normalize_path` gives for "cur/name". */
  lemma OpenChildAgrees(cur: string, name: string)
    requires KShell.Normal(cur) && KShell.Clean(name)
    ensures OpenPath(cur, name) == ChildPath(cur, name)
    ensures ChildPath(cur, name) == KShell.NormalizePath(cur + "/" + name)
    ensures KShell.Normal(ChildPath(cur, name))
  {
    KShell.NormalizeAppend(cur, name);
    if cur == "/" {
      assert KShell.Step([], name) == [name];
    } else {
      KShell.PartsOfNormal(cur);
      var cs := KShell.Parts(cur);
      JoinSnoc(cs, name);
      assert "/" + (cur[1..] + [SLASH] + name) == cur + "/" + name;
    }
  }

  // ---------------------------------------------------------------------
  // Windows

  /** `Window`, without its content (terminal, editor, ...) and title text
      drawing. Coordinates are unbounded integers. */
  datatype Window = Window(
    id: nat,
    title: string,
    x: int,
    y: int,
    width: nat,
    height: nat,
    visible: bool,
    focused: bool,
    dragging: bool,
    dragX: int,
    dragY: int)

  const TITLE_BAR: int := 32

  /** `Window::new`: visible and focused, not being dragged. */
  function NewWindow(id: nat, title: string, x: int, y: int, w: nat, h: nat): (r: Window)
    ensures r.id == id && r.visible && r.focused && !r.dragging
  {
    Window(id, title, x, y, w, h, true, true, false, 0, 0)
  }

  predicate InTitleBar(w: Window, px: int, py: int)
  {
    w.x <= px < w.x + w.width && w.y <= py < w.y + TITLE_BAR
  }

  /** The round close button: radius 7 around (x + 14, y + 16). */
  predicate InClose(w: Window, px: int, py: int)
  {
    var dx := px - (w.x + 14);
    var dy := py - (w.y + 16);
    dx * dx + dy * dy <= 49
  }

  predicate InWindow(w: Window, px: int, py: int)
  {
    w.x <= px < w.x + w.width && w.y <= py < w.y + w.height
  }

  lemma SquareBound(d: int, e: int)
    requires d * d + e * e <= 49
    ensures -7 <= d <= 7
  {
  }

  /** The close button lies in the title bar of a window at least 22
      pixels wide, and the title bar in a window at least 32 high. */
  lemma HitAreasNest(w: Window, px: int, py: int)
    ensures w.width >= 22 && InClose(w, px, py) ==> InTitleBar(w, px, py)
    ensures w.height >= TITLE_BAR && InTitleBar(w, px, py) ==> InWindow(w, px, py)
  {
    var dx := px - (w.x + 14);
    var dy := py - (w.y + 16);
    if dx * dx + dy * dy <= 49 {
      SquareBound(dx, dy);
      SquareBound(dy, dx);
    }
  }

  // ---------------------------------------------------------------------
  // The window list

  /** `GuiState`'s windows, drawn in order (the last on top), and the next
      id to hand out. */
  datatype Desktop = Desktop(windows: seq<Window>, nextId: nat)

  const INITIAL: Desktop := Desktop([], 1)

  predicate UniqueIds(ws: seq<Window>)
  {
    forall i, j :: 0 <= i < j < |ws| ==> ws[i].id != ws[j].id
  }

  /** Ids are distinct, non-zero and below the next one. */
  predicate DesktopOk(g: Desktop)
  {
    && g.nextId >= 1
    && UniqueIds(g.windows)
    && (forall k :: 0 <= k < |g.windows| ==> 1 <= g.windows[k].id < g.nextId)
  }

  function Unfocused(ws: seq<Window>): (r: seq<Window>)
    ensures |r| == |ws|
    ensures forall k :: 0 <= k < |r| ==> r[k] == ws[k].(focused := false)
  {
    if ws == [] then [] else [ws[0].(focused := false)] + Unfocused(ws[1..])
  }

  /** `create_window`: the new window gets the next id, goes on top and is
      the only one focused. */
  function CreateWindow(g: Desktop, title: string, x: int, y: int, w: nat, h: nat): (r: (Desktop, nat))
    ensures r.1 == g.nextId && r.0.nextId == g.nextId + 1
    ensures |r.0.windows| == |g.windows| + 1
    ensures var top := r.0.windows[|g.windows|]; top.id == r.1 && top.focused && top.title == title
    ensures forall k :: 0 <= k < |g.windows| ==> r.0.windows[k] == g.windows[k].(focused := false)
  {
    (Desktop(Unfocused(g.windows) + [NewWindow(g.nextId, title, x, y, w, h)], g.nextId + 1), g.nextId)
  }

  /** `close_window`: the windows with that id go, the rest keep order. */
  function CloseWindow(g: Desktop, id: nat): (r: Desktop)
    ensures r.nextId == g.nextId && |r.windows| <= |g.windows|
    ensures forall k :: 0 <= k < |r.windows| ==> r.windows[k].id != id
  {
    g.(windows := Others(g.windows, id))
  }

  function Others(ws: seq<Window>, id: nat): (r: seq<Window>)
    ensures forall k :: 0 <= k < |r| ==> r[k].id != id
    ensures |r| <= |ws|
  {
    if ws == [] then []
    else if ws[0].id == id then Others(ws[1..], id)
    else [ws[0]] + Others(ws[1..], id)
  }

  /** The first position of a window with that id. */
  function Find(ws: seq<Window>, id: nat): (r: Option<nat>)
    ensures r.Some? ==> (r.value < |ws| && ws[r.value].id == id
      && forall k :: 0 <= k < r.value ==> ws[k].id != id)
    ensures r.None? ==> forall k :: 0 <= k < |ws| ==> ws[k].id != id
  {
    if ws == [] then None
    else if ws[0].id == id then Some(0)
    else match Find(ws[1..], id)
      case None => None
      case Some(p) => Some(p + 1)
  }

  /** `focus_window`: every window's focus flag becomes "is this the one",
      then the first window with that id moves to the top. */
  function FocusWindow(g: Desktop, id: nat): (r: Desktop)
    ensures r.nextId == g.nextId && |r.windows| == |g.windows|
    ensures Find(g.windows, id).None? ==> forall k :: 0 <= k < |r.windows| ==> !r.windows[k].focused
    ensures Find(g.windows, id).Some? ==> r.windows[|r.windows| - 1].id == id && r.windows[|r.windows| - 1].focused
  {
    var ws := SetFocus(g.windows, id);
    match Find(ws, id)
    case None => g.(windows := ws)
    case Some(p) => g.(windows := ws[..p] + ws[p + 1..] + [ws[p]])
  }

  function SetFocus(ws: seq<Window>, id: nat): (r: seq<Window>)
    ensures |r| == |ws|
    ensures forall k :: 0 <= k < |r| ==> r[k] == ws[k].(focused := ws[k].id == id)
  {
    if ws == [] then [] else [ws[0].(focused := ws[0].id == id)] + SetFocus(ws[1..], id)
  }

  /** Focusing a window puts it on top as the only focused window and
      keeps the others in order, unfocused; an unknown id only unfocuses. */
  lemma FocusOnTop(g: Desktop, id: nat)
    requires UniqueIds(g.windows)
    ensures var ws := g.windows; var r := FocusWindow(g, id).windows;
      match Find(ws, id)
      case None => r == Unfocused(ws)
      case Some(p) => r == Unfocused(ws[..p] + ws[p + 1..]) + [ws[p].(focused := true)]
  {
    var ws := g.windows;
    var f := SetFocus(ws, id);
    assert forall k :: 0 <= k < |f| ==> f[k].id == ws[k].id;
    if Find(ws, id).None? {
      assert Find(f, id).None?;
      assert f == Unfocused(ws);
    } else {
      var p := Find(ws, id).value;
      assert Find(f, id) == Some(p) by {
        var q := Find(f, id);
        assert q.Some?;
        assert q.value == p;
      }
      var o := ws[..p] + ws[p + 1..];
      var fo := f[..p] + f[p + 1..];
      assert |fo| == |o|;
      forall k | 0 <= k < |o|
        ensures fo[k] == o[k].(focused := false)
      {
        if k < p {
          assert fo[k] == f[k];
        } else {
          assert fo[k] == f[k + 1];
          assert ws[k + 1].id != ws[p].id;
        }
      }
      assert fo == Unfocused(o);
    }
  }

  /** After focusing a window that exists, it is the only focused one and
      it is drawn last. */
  lemma FocusExclusive(g: Desktop, id: nat)
    requires UniqueIds(g.windows) && Find(g.windows, id).Some?
    ensures var r := FocusWindow(g, id).windows;
      && |r| == |g.windows|
      && r[|r| - 1].id == id
      && (forall k :: 0 <= k < |r| ==> (r[k].focused <==> k == |r| - 1))
  {
    FocusOnTop(g, id);
  }

  /** Creating, closing and focusing keep ids distinct and below the next. */
  lemma CreateKeepsOk(g: Desktop, title: string, x: int, y: int, w: nat, h: nat)
    requires DesktopOk(g)
    ensures DesktopOk(CreateWindow(g, title, x, y, w, h).0)
  {
    var u := Unfocused(g.windows);
    assert forall k :: 0 <= k < |u| ==> u[k].id == g.windows[k].id;
  }

  lemma CloseKeepsOk(g: Desktop, id: nat)
    requires DesktopOk(g)
    ensures DesktopOk(CloseWindow(g, id))
  {
    var ws := g.windows;
    OthersSub(ws, id);
    var others := Others(ws, id);
    forall k | 0 <= k < |others| ensures 1 <= others[k].id < g.nextId {
      assert others[k] in ws;
      var j :| 0 <= j < |ws| && ws[j] == others[k];
    }
  }

  /** Moving one window to the top keeps ids distinct and bounded. */
  lemma MoveToTopOk(ws: seq<Window>, p: nat, next: nat)
    requires p < |ws| && DesktopOk(Desktop(ws, next))
    ensures DesktopOk(Desktop(ws[..p] + ws[p + 1..] + [ws[p]], next))
  {
    var r := ws[..p] + ws[p + 1..] + [ws[p]];
    forall i, j | 0 <= i < j < |r| ensures r[i].id != r[j].id {
      var a := if i < p then i else i + 1;
      var b := if j == |r| - 1 then p else if j < p then j else j + 1;
      assert r[i] == ws[a] && r[j] == ws[b];
    }
    forall k | 0 <= k < |r| ensures 1 <= r[k].id < next {
      var a := if k == |r| - 1 then p else if k < p then k else k + 1;
      assert r[k] == ws[a];
    }
  }

  lemma FocusKeepsOk(g: Desktop, id: nat)
    requires DesktopOk(g)
    ensures DesktopOk(FocusWindow(g, id))
  {
    var f := SetFocus(g.windows, id);
    assert forall k :: 0 <= k < |f| ==> f[k].id == g.windows[k].id;
    assert DesktopOk(Desktop(f, g.nextId));
    match Find(f, id)
    case None =>
    case Some(p) =>
      MoveToTopOk(f, p, g.nextId);
  }

  /** `Others` keeps a subsequence: each kept window comes from a later
      position than the one before it. */
  lemma {:induction false} OthersSub(ws: seq<Window>, id: nat)
    ensures forall w :: w in Others(ws, id) ==> w in ws
    ensures UniqueIds(ws) ==> UniqueIds(Others(ws, id))
  {
    if ws != [] {
      OthersSub(ws[1..], id);
      var rest := Others(ws[1..], id);
      if ws[0].id != id && UniqueIds(ws) {
        var r := [ws[0]] + rest;
        assert UniqueIds(ws[1..]) by {
          forall i, j | 0 <= i < j < |ws[1..]| ensures ws[1..][i].id != ws[1..][j].id {
            assert ws[1..][i] == ws[i + 1] && ws[1..][j] == ws[j + 1];
          }
        }
        forall i, j | 0 <= i < j < |r| ensures r[i].id != r[j].id {
          if i == 0 {
            assert r[j] in ws[1..];
          } else {
            assert r[i] == rest[i - 1] && r[j] == rest[j - 1];
          }
        }
      }
    }
  }

  /** Closing a window just created gives back the windows that were there,
      unfocused. */
  lemma CreateThenClose(g: Desktop, title: string, x: int, y: int, w: nat, h: nat)
    requires DesktopOk(g)
    ensures var (c, id) := CreateWindow(g, title, x, y, w, h);
      CloseWindow(c, id).windows == Unfocused(g.windows)
  {
    var id := g.nextId;
    var u := Unfocused(g.windows);
    assert forall k :: 0 <= k < |u| ==> u[k].id != id;
    OthersAppend(u, [NewWindow(id, title, x, y, w, h)], id);
    OthersAbsent(u, id);
  }

  lemma {:induction false} OthersAppend(a: seq<Window>, b: seq<Window>, id: nat)
    ensures Others(a + b, id) == Others(a, id) + Others(b, id)
  {
    if a == [] {
      assert a + b == b;
    } else {
      assert (a + b)[1..] == a[1..] + b;
      OthersAppend(a[1..], b, id);
    }
  }

  lemma {:induction false} OthersAbsent(ws: seq<Window>, id: nat)
    requires forall k :: 0 <= k < |ws| ==> ws[k].id != id
    ensures Others(ws, id) == ws
  {
    if ws != [] {
      OthersAbsent(ws[1..], id);
      assert ws == [ws[0]] + ws[1..];
    }
  }

  // ---------------------------------------------------------------------
  // The toolbar path box

  const PATH_BOX_MAX: nat := 320
  const PATH_BOX_MIN: nat := 80

  /** `compute_path_box_width`: 320 pixels, or the content width less 48
      when that is smaller, but never under 80. */
  function PathBoxWidth(contentWidth: u32): (r: u32)
    ensures PATH_BOX_MIN <= r <= PATH_BOX_MAX
    ensures contentWidth >= PATH_BOX_MAX + 48 ==> r == PATH_BOX_MAX
    ensures contentWidth <= PATH_BOX_MIN + 48 ==> r == PATH_BOX_MIN
    ensures PATH_BOX_MIN + 48 <= contentWidth <= PATH_BOX_MAX + 48 ==> r == contentWidth - 48
  {
    var avail := if contentWidth >= 48 then contentWidth - 48 else 0;
    Max(Min(PATH_BOX_MAX, avail), PATH_BOX_MIN)
  }

  /** The module's own tests: 100 gives the minimum, 1000 the maximum. */
  lemma PathBoxWidthTests()
    ensures PathBoxWidth(100) == 80 && PathBoxWidth(1000) == 320
  {
  }

  /** `trim_path_for_box`: the path if it fits; otherwise "..." followed by
      as much of its end as fits (just "..." when at most 3 characters
      fit). */
  function TrimPath(path: string, maxChars: nat): (r: string)
    ensures |path| <= maxChars ==> r == path
    ensures |path| > maxChars ==> |r| >= 3 && r[..3] == "..."
    ensures |path| > maxChars && maxChars > 3 ==> |r| == maxChars && r[3..] == path[|path| - |r[3..]|..]
    ensures maxChars >= 3 ==> |r| <= maxChars
  {
    if |path| <= maxChars then path
    else if maxChars <= 3 then "..."
    else "..." + path[|path| - (maxChars - 3)..]
  }

  /** The toolbar shows `(width - 16) / 8` characters of the path: between
      8 and 38, so the path box always shows part of the path's end. */
  lemma PathBoxChars(contentWidth: u32)
    ensures 8 <= (PathBoxWidth(contentWidth) - 16) / 8 <= 38
  {
  }

  /** The module's own tests of `trim_path_for_box`. */
  lemma TrimPathTests()
    ensures TrimPath("/home/user", 20) == "/home/user"
    ensures var t := TrimPath("/very/long/path/to/some/deep/directory/structure/user", 10);
      |t| <= 10 && t[..3] == "..."
  {
  }
}
