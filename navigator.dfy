/**
 * The navigator: the interactive session's state and its transitions.
 *
 * `App` keeps the directory on display, its ranked entries, their total and
 * the cursor, both as the plain index `selected` and as the list widget's
 * `Option` selection. Every transition that shows a new directory goes
 * through `LoadDirectory`, which rescans and resets the cursor. The
 * filesystem is an input of each loading transition: it may change between
 * calls, and `Refresh` exists to observe that.
 */
module Navigator {
  import opened Options
  import opened FsModel
  import opened Scanner

  /** The selection `next` moves to: one down, wrapping from the last entry
      (or from anything beyond it) to the first; no selection goes to the first. */
  function NextIndex(sel: Option<nat>, len: nat): (i: nat)
    requires len > 0
    ensures i < len
    ensures sel.None? ==> i == 0
  {
    match sel
    case Some(i) => if i >= len - 1 then 0 else i + 1
    case None => 0
  }

  /** The selection `previous` moves to: one up, wrapping from the first entry
      to the last; no selection goes to the first. */
  function PrevIndex(sel: Option<nat>, len: nat): (i: nat)
    requires len > 0
    ensures sel.Some? && sel.value < len ==> i < len
    ensures sel.None? ==> i == 0
  {
    match sel
    case Some(i) => if i == 0 then len - 1 else i - 1
    case None => 0
  }

  /** `next` and `previous` on a valid selection are rotations by one. */
  lemma StepsAreRotations(i: nat, len: nat)
    requires i < len
    ensures NextIndex(Some(i), len) == (i + 1) % len
    ensures PrevIndex(Some(i), len) == (i - 1) % len
  {
    if i + 1 == len {
      assert (i + 1) % len == 0;
    } else {
      assert (i + 1) % len == i + 1;
    }
    if i == 0 {
      assert (i - 1) % len == len - 1;
    } else {
      assert (i - 1) % len == i - 1;
    }
  }

  /** `previous` undoes `next` and `next` undoes `previous`. */
  lemma StepsAreInverse(i: nat, len: nat)
    requires i < len
    ensures PrevIndex(Some(NextIndex(Some(i), len)), len) == i
    ensures NextIndex(Some(PrevIndex(Some(i), len)), len) == i
  {
  }

  /** The selection after `k` presses of `next` from `i`. */
  function NextTimes(i: nat, len: nat, k: nat): (r: nat)
    requires i < len
    ensures r < len
  {
    if k == 0 then i else NextIndex(Some(NextTimes(i, len, k - 1)), len)
  }

  /** The selection after `k` presses of `previous` from `i`. */
  function PrevTimes(i: nat, len: nat, k: nat): (r: nat)
    requires i < len
    ensures r < len
  {
    if k == 0 then i else PrevIndex(Some(PrevTimes(i, len, k - 1)), len)
  }

  lemma {:induction false} NextTimesOffset(i: nat, len: nat, k: nat)
    requires i < len && k <= len
    ensures NextTimes(i, len, k) == if i + k < len then i + k else i + k - len
  {
    if k > 0 {
      NextTimesOffset(i, len, k - 1);
    }
  }

  lemma {:induction false} PrevTimesOffset(i: nat, len: nat, k: nat)
    requires i < len && k <= len
    ensures PrevTimes(i, len, k) == if k <= i then i - k else i + len - k
  {
    if k > 0 {
      PrevTimesOffset(i, len, k - 1);
    }
  }

  /** Pressing `next` (or `previous`) as many times as there are entries
      comes back to where the cursor started. */
  lemma WrapAroundCloses(i: nat, len: nat)
    requires i < len
    ensures NextTimes(i, len, len) == i
    ensures PrevTimes(i, len, len) == i
  {
    NextTimesOffset(i, len, len);
    PrevTimesOffset(i, len, len);
  }

  class App {
    var currentPath: Path
    var items: seq<DirEntry>
    var totalSize: nat
    var selected: nat
    /** The list widget's selection. */
    var listState: Option<nat>
    var shouldQuit: bool

    /** The session invariant: the total is the entries' sum, and the cursor
        is on an entry, or absent exactly when there are no entries, with the
        two cursor fields in agreement. */
    ghost predicate Valid()
      reads this
      ensures Valid() ==> (listState.Some? <==> items != [])
      ensures Valid() && items != [] ==> selected < |items| && (EnterTarget().Some? <==> items[selected].isDir)
    {
      && totalSize == TotalSize(items)
      && (items == [] ==> listState == None && selected == 0)
      && (items != [] ==> listState == Some(selected) && selected < |items|)
    }

    /** The state right after `load_directory(path)` against `fs`. */
    ghost predicate Loaded(fs: FileSystem, path: Path)
      reads this
    {
      && currentPath == path
      && items == Scan(fs, path)
      && totalSize == TotalSize(items)
      && selected == 0
      && listState == (if items == [] then None else Some(0))
    }

    /** The directory `enter_directory` would open: the selected entry, when
        there is one within the list and it is a directory. */
    function EnterTarget(): (r: Option<Path>)
      reads this
      ensures r.Some? <==> (listState.Some? && listState.value < |items| && items[listState.value].isDir)
      ensures r.Some? ==> r.value == items[listState.value].path
    {
      if listState.Some? && listState.value < |items| && items[listState.value].isDir
      then Some(items[listState.value].path)
      else None
    }

    /** `App::new`: a session showing `path`, not asked to quit. */
    constructor (fs: FileSystem, path: Path)
      ensures Loaded(fs, path) && Valid() && !shouldQuit
    {
      currentPath, items, totalSize, selected, listState, shouldQuit := path, [], 0, 0, None, false;
      new;
      LoadDirectory(fs, path);
    }

    /** `load_directory`: show `path`, rescanned, with the cursor on the first
        entry or on nothing. */
    method LoadDirectory(fs: FileSystem, path: Path)
      modifies this
      ensures Loaded(fs, path) && Valid()
      ensures shouldQuit == old(shouldQuit)
    {
      var scanned := ScanDirectory(fs, path);
      currentPath, items, totalSize, selected := path, scanned, TotalSize(scanned), 0;
      if scanned != [] {
        listState := Some(0);
      } else {
        listState := None;
      }
    }

    /** `next`: nothing happens on an empty list; otherwise the cursor moves
        down one, wrapping to the top, and both cursor fields agree. */
    method Next()
      modifies this
      ensures old(items) == [] ==> unchanged(this)
      ensures old(items) != [] ==> listState == Some(selected) && selected == NextIndex(old(listState), |old(items)|)
      ensures items == old(items) && currentPath == old(currentPath)
      ensures totalSize == old(totalSize) && shouldQuit == old(shouldQuit)
      ensures old(Valid()) ==> Valid()
    {
      if items == [] {
        return;
      }
      var i := match listState
        case Some(i) => if i >= |items| - 1 then 0 else i + 1
        case None => 0;
      listState := Some(i);
      selected := i;
    }

    /** `previous`: nothing happens on an empty list; otherwise the cursor
        moves up one, wrapping to the bottom, and both cursor fields agree. */
    method Previous()
      modifies this
      ensures old(items) == [] ==> unchanged(this)
      ensures old(items) != [] ==> listState == Some(selected) && selected == PrevIndex(old(listState), |old(items)|)
      ensures items == old(items) && currentPath == old(currentPath)
      ensures totalSize == old(totalSize) && shouldQuit == old(shouldQuit)
      ensures old(Valid()) ==> Valid()
    {
      if items == [] {
        return;
      }
      var i := match listState
        case Some(i) => if i == 0 then |items| - 1 else i - 1
        case None => 0;
      listState := Some(i);
      selected := i;
    }

    /** `enter_directory`: opens the selected entry when it is a directory
        within the list; in every other case nothing changes. */
    method EnterDirectory(fs: FileSystem)
      modifies this
      ensures old(EnterTarget()).None? ==> unchanged(this)
      ensures old(EnterTarget()).Some? ==> Loaded(fs, old(EnterTarget()).value) && Valid()
      ensures shouldQuit == old(shouldQuit)
    {
      if listState.Some? {
        var sel := listState.value;
        if sel < |items| {
          var item := items[sel];
          if item.isDir {
            LoadDirectory(fs, item.path);
          }
        }
      }
    }

    /** `go_up`: opens the parent of the current path; at a path without a
        parent nothing changes. */
    method GoUp(fs: FileSystem)
      modifies this
      ensures Parent(old(currentPath)).None? ==> unchanged(this)
      ensures Parent(old(currentPath)).Some? ==> Loaded(fs, Parent(old(currentPath)).value) && Valid()
      ensures shouldQuit == old(shouldQuit)
    {
      var parent := Parent(currentPath);
      if parent.Some? {
        LoadDirectory(fs, parent.value);
      }
    }

    /** `refresh`: rescans the current path. */
    method Refresh(fs: FileSystem)
      modifies this
      ensures Loaded(fs, old(currentPath)) && Valid()
      ensures shouldQuit == old(shouldQuit)
    {
      var path := currentPath;
      LoadDirectory(fs, path);
    }

    /** `quit`: asks the session to end and changes nothing else. */
    method Quit()
      modifies this
      ensures shouldQuit
      ensures currentPath == old(currentPath) && items == old(items) && totalSize == old(totalSize)
      ensures selected == old(selected) && listState == old(listState)
    {
      shouldQuit := true;
    }
  }

  /** Opening the first entry of `root` when it is a directory and then going
      up shows `root` again, with the same entries and total, when the
      filesystem has not changed in between. */
  method EnterThenGoUp(fs: FileSystem, root: Path)
    returns (entered: bool, afterPath: Path, before: seq<DirEntry>, after: seq<DirEntry>,
             beforeTotal: nat, afterTotal: nat)
    ensures entered <==> (Scan(fs, root) != [] && Scan(fs, root)[0].isDir)
    ensures before == Scan(fs, root)
    ensures entered ==> afterPath == root && after == before && afterTotal == beforeTotal
  {
    var app := new App(fs, root);
    before, beforeTotal := app.items, app.totalSize;
    entered := app.EnterTarget().Some?;
    if entered {
      ScanEntry(fs, root, app.items[0]);
    }
    app.EnterDirectory(fs);
    if entered {
      app.GoUp(fs);
    }
    afterPath, after, afterTotal := app.currentPath, app.items, app.totalSize;
  }

  /** Started at `.`, going up reaches the empty path, which lists nothing
      and has no parent: the session cannot climb above a relative start. */
  lemma UpFromCurrentDir(fs: FileSystem)
    ensures Parent(Path(false, [CurDir])) == Some(Path(false, []))
    ensures Scan(fs, Path(false, [])) == []
    ensures Parent(Path(false, [])).None?
  {
  }
}
