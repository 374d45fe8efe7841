# rdu — a verified model of the scanner and navigator

rdu is a disk-usage analyser. Given a directory, it lists the directory's
immediate children, each measured by the total length of the regular files
beneath it, ranked largest first, and lets the user browse the tree
interactively: move the cursor up and down with wrap-around, open the
selected directory, go up to the parent, rescan, quit. Sizes are coloured by
band (1 MB, 10 MB, 100 MB, 1 GB, decimal units) and drawn as a 20-cell
progress bar.

This project models the core of that program in Dafny:

- `options.dfy` — `Options.Option`, the optional value the model uses
  wherever the program has an `Option`.
- `fs_model.dfy` — `FsModel`: an abstract filesystem (a tree of files,
  directories and other nodes in which directory reads, metadata reads and
  single directory entries can fail), Rust-style paths held as components,
  `join`, `parent`, `file_name`, and path lookup from the root or from the
  working directory.
- `scanner.dfy` — `Scanner`: `DirEntry`; `calculate_size` written as the
  walk pipeline the program uses (walk, drop errors, keep regular files,
  take lengths, sum), proved equal to a recursive sum over the tree;
  `calculate_total_size`; `scan_directory` as a method that lists, measures
  and sorts an array in place by an insertion sort. The sort is proved to
  produce `SortDesc`. `SortDesc` is proved sorted, a permutation and stable,
  and it is the only ordering with those three properties.
- `utils.dfy` — `Utils`: the size thresholds, the list colour and the report
  colour of a size, line colouring, and the progress bar built from its
  filled cell count.
- `navigator.dfy` — `Navigator`: the session state as a class `App` whose
  methods update its fields in place (`new`, `load_directory`, `next`,
  `previous`, `enter_directory`, `go_up`, `refresh`, `quit`). It also holds
  the session invariant `Valid` and the state `Loaded(fs, path)` right after
  a directory is loaded. The filesystem is an argument of every transition
  that reads it.

## Model

| member | source | states |
|---|---|---|
| FsModel.Join | src/scanner.rs:24 | joining a name to a directory path keeps its root and components and adds the name as one more, last, component |
| FsModel.Parent | src/app.rs:99 | there is no parent exactly when the path has no components left; a parent keeps the root and is the path's own components without the last one |
| FsModel.FileName | src/scanner.rs:32-36 | the name is the last component when it is a plain name, and the empty string when there is none |
| FsModel.JoinParent | src/scanner.rs:24-39 | the parent of a listed child's path is the scanned directory, and its file name is the name it was listed under |
| FsModel.ChildNamed | src/scanner.rs:18-24 | the child found under a name is a readable entry with that name; when none is found, no readable entry has that name |
| FsModel.Step | src/scanner.rs:18 | resolving one component: `.` stays put; `..` succeeds exactly on a directory that can be searched and drops the last directory but never the root; a name succeeds exactly when the current directory's listing can be read and has a readable entry of that name, and descends into it |
| FsModel.Follow | src/scanner.rs:18 | resolving a list of components keeps the root at the bottom of the chain and adds at most one directory per component |
| FsModel.Lookup | src/scanner.rs:18-21 | the empty relative path names nothing, so reading it as a directory fails |
| FsModel.FollowSnoc | src/scanner.rs:24-31 | following a path with one more component is following the path and then taking one step |
| Scanner.WalkFrom | src/scanner.rs:62-63 | the walk of a node starts by visiting the node itself; anything but a directory yields only itself |
| Scanner.WalkBelow | src/scanner.rs:62-63 | below a non-directory the walk yields nothing, below an unreadable directory one error, and below a readable directory it visits every readable child |
| Scanner.WalkSlots | src/scanner.rs:62-63 | the walk over a listing yields at least one item per entry and visits every readable entry |
| Scanner.IsFile | src/scanner.rs:57-58 | a path that is a file is a regular file, and its direct metadata length equals what the walk pipeline would give for it |
| Scanner.OkNodes | src/scanner.rs:65 | every node the walk visited is kept, nothing else is, and no items are added |
| Scanner.RegularFiles | src/scanner.rs:67 | every regular file is kept and everything kept is a regular file from the input |
| Scanner.Lengths | src/scanner.rs:69 | one length per file, the metadata length or 0 when it cannot be read |
| Scanner.CalculateSize | src/scanner.rs:55-71 | the size of a node is the total length of the regular files in its subtree; a file's size is its metadata length, or 0 when unreadable |
| Scanner.WalkTotalIsFileBytes | src/scanner.rs:62-70 | the walk pipeline over a node's pre-order walk equals the recursive file total: each regular file is counted once, directories, other nodes and errors add 0 |
| Scanner.WalkSlotsTotal | src/scanner.rs:62-70 | the same for the walk over a directory's listing, bad entries adding 0 |
| Scanner.WalkTotalConcat | src/scanner.rs:65-70 | the pipeline's total over two walks joined is the sum of their totals |
| Scanner.VisitTotal | src/scanner.rs:65-69 | a visited node adds its length exactly when it is a regular file; an error adds 0 |
| Scanner.SumConcat | src/scanner.rs:70 | the sum of two sequences joined is the sum of their sums |
| Scanner.TotalSize | src/scanner.rs:74-76 | the total of no entries is 0 and no entry is larger than the total |
| Scanner.TotalSizeConcat | src/scanner.rs:74-76 | the total of two entry lists joined is the sum of their totals |
| Scanner.TotalSizePermutation | src/scanner.rs:74-76 | the total does not depend on the order of the entries |
| Scanner.InsertBackPermutation | src/scanner.rs:48 | one insertion step adds exactly the inserted entry and loses nothing |
| Scanner.InsertBackSorted | src/scanner.rs:48 | inserting into a list sorted by size, largest first, keeps it sorted |
| Scanner.SortDescSorted | src/scanner.rs:48 | the sort's result is ordered by size, largest first, and is a permutation of its input |
| Scanner.InsertBackStable | src/scanner.rs:48 | an insertion step appends the new entry to the entries of its size and leaves every other size alone |
| Scanner.SortDescStable | src/scanner.rs:48 | the sort is stable: entries of equal size keep their input order |
| Scanner.WithSizeSnoc | src/scanner.rs:48 | appending an entry extends only the subsequence of its own size |
| Scanner.WithSizeEntries | src/scanner.rs:48 | the entries of one size, taken in order, are entries of the list with that size |
| Scanner.SortedStableEqual | src/scanner.rs:48 | two lists of equal length, both sorted by size and with the same entries of every size in the same order, are equal |
| Scanner.StableSortUnique | src/scanner.rs:48 | any permutation sorted by size, largest first, that keeps equal sizes in input order is `SortDesc`; any stable sort by this key gives the same list |
| Scanner.InsertBackAt | src/scanner.rs:48 | inserting from the back puts the new entry after the last entry at least as large and before the trailing strictly smaller ones |
| Scanner.InsertAt | src/scanner.rs:48 | one in-place pass moves an entry into the sorted prefix before it, as one insertion step, and leaves the rest of the array as it was |
| Scanner.SortDescPrefix | src/scanner.rs:48 | sorting one more entry of the input is one more insertion step |
| Scanner.SortBySizeDesc | src/scanner.rs:48 | the in-place sort leaves the array holding `SortDesc` of its old contents |
| Scanner.Listed | src/scanner.rs:23-25 | every readable entry of the listing is kept and everything kept is a readable entry of the listing, never more than were listed |
| Scanner.ListedConcat | src/scanner.rs:23-25 | the kept entries stay in listing order: those of two listings joined are those of the first followed by those of the second |
| Scanner.ListedAllGood | src/scanner.rs:23-25 | a listing without errors is kept whole and in order |
| Scanner.ListedChildResolves | src/scanner.rs:24-31 | the path of a listed child, looked up again, names the first readable entry of that name in the directory |
| Scanner.UpOutOfUnlistable | src/scanner.rs:18-21 | a path that climbs with `..` out of a directory that cannot be read names nothing, so reading it as a directory fails |
| Scanner.MakeEntry | src/scanner.rs:30-44 | an entry's path is the child joined to the directory; its parent is the directory; its name is the path's file name; its size is its recursive file total; it is a directory exactly when the child is one |
| Scanner.MeasureAll | src/scanner.rs:28-45 | one entry per listed child, in listing order |
| Scanner.ReadDir | src/scanner.rs:18-21 | reading succeeds exactly when the path names a directory whose listing can be read |
| Scanner.Scan | src/scanner.rs:17-51 | an unreadable directory scans as nothing; otherwise the result is a permutation of the measured children and is sorted by size, largest first |
| Scanner.ScanOfListing | src/scanner.rs:17-51 | a readable directory scans as its measured children, ranked by the stable sort |
| Scanner.ScanDirectory | src/scanner.rs:17-51 | the method that lists, measures into an array and sorts it in place returns exactly `Scan` |
| Scanner.Paths | src/scanner.rs:39 | the paths of the entries, in their order |
| Scanner.ChildPaths | src/scanner.rs:24 | the paths of the listed children, each the child's name joined to the directory |
| Scanner.PathsPermutation | src/scanner.rs:28-48 | rearranging entries rearranges their paths the same way |
| Scanner.MeasureAllConcat | src/scanner.rs:28-45 | measuring two listings joined is measuring each and joining the results |
| Scanner.MeasuredTotal | src/scanner.rs:23-45 | the sizes of the measured children add up to the directory's recursive file total |
| Scanner.ScanListsEachChildOnce | src/scanner.rs:17-51 | a scan lists every readable child exactly once, with nothing added |
| Scanner.ScanStable | src/scanner.rs:28-48 | children of equal size come out of a scan in listing order |
| Scanner.ScanEntry | src/scanner.rs:30-44 | every scanned entry is a child of the scanned path, named by its last component, and built from one of the listed children |
| Scanner.ScanTotal | src/scanner.rs:17-76 | the total of a scan is the recursive file total of the directory; an unreadable directory totals 0 |
| Scanner.ExampleRead | src/scanner.rs:18-21 | in the worked example, reading `/data` gives its three entries |
| Scanner.ExampleEntries | src/scanner.rs:30-44 | in the example, for any subdirectory holding 3,000,000 bytes, the three children become the expected entries in listing order: path, name, size and kind |
| Scanner.ExampleMeasured | src/scanner.rs:23-45 | in a worked example directory the three children are measured, a subdirectory by the file inside it |
| Scanner.ExampleSorted | src/scanner.rs:48 | in the example, the sort puts the subdirectory between the large file and the small one |
| Scanner.ExampleTotal | src/scanner.rs:74-76 | the example's entries total 8,000,120 bytes |
| Scanner.ExampleScan | src/scanner.rs:17-76 | the example directory scans as big.log, sub, small.txt, totalling 8,000,120 bytes |
| Utils.Reached | src/utils.rs:5-8 | the number of thresholds a size reaches is at most the number of thresholds |
| Utils.Band | src/utils.rs:5-8 | a size falls in one of five bands |
| Utils.ColorForSize | src/utils.rs:46-58 | red exactly from 1 GB, yellow exactly from 100 MB below 1 GB, green exactly from 10 MB below 100 MB, cyan exactly from 1 MB below 10 MB, white exactly below 1 MB |
| Utils.ApplyColor | src/utils.rs:30-42 | the text is unchanged; bright red exactly from 1 GB, yellow exactly from 100 MB below 1 GB, green exactly from 10 MB below 100 MB, cyan exactly from 1 MB below 10 MB, white exactly below 1 MB |
| Utils.ColorizeLine | src/utils.rs:25-27 | a line keeps its text and is painted in the report colour of its size's band |
| Utils.ApplySameBands | src/utils.rs:30-58 | the report colouring and the list colouring pick the same band for every size |
| Utils.ColorIsBand | src/utils.rs:46-58 | the colour's rank is the number of thresholds the size reaches |
| Utils.ReachedMonotone | src/utils.rs:46-58 | a larger size reaches at least as many thresholds |
| Utils.ColorMonotone | src/utils.rs:46-58 | a larger size never gets a lower colour band |
| Utils.Repeat | src/utils.rs:17-18 | a character repeated n times is n copies of it |
| Utils.ProgressBar | src/utils.rs:12-21 | the bar is always 20 cells: as many full cells as the filled count clamped to 20, then empty cells |
| Utils.Count | src/utils.rs:17-20 | a character occurs at most as often as the string is long |
| Utils.CountRuns | src/utils.rs:17-20 | a run of full cells followed by empty cells holds exactly as many of each as the run lengths |
| Utils.ProgressBarCounts | src/utils.rs:15-20 | a bar shows the clamped filled count in full cells and the rest of the width in empty cells |
| Navigator.NextIndex | src/app.rs:52-61 | the cursor after `next` is within the list; with no selection it goes to the first entry |
| Navigator.PrevIndex | src/app.rs:71-80 | the cursor after `previous` is within the list when it started within it; with no selection it goes to the first entry |
| Navigator.StepsAreRotations | src/app.rs:48-83 | on a valid cursor, `next` is adding one and `previous` is subtracting one, modulo the list length |
| Navigator.StepsAreInverse | src/app.rs:48-83 | `previous` undoes `next` and `next` undoes `previous` |
| Navigator.NextTimes | src/app.rs:52-61 | any number of `next` presses leaves the cursor within the list |
| Navigator.PrevTimes | src/app.rs:71-80 | any number of `previous` presses leaves the cursor within the list |
| Navigator.NextTimesOffset | src/app.rs:52-61 | k presses of `next`, k at most the length, move the cursor k places down, wrapping past the end |
| Navigator.PrevTimesOffset | src/app.rs:71-80 | k presses of `previous`, k at most the length, move the cursor k places up, wrapping past the start |
| Navigator.WrapAroundCloses | src/app.rs:48-83 | pressing `next` or `previous` as many times as there are entries comes back to the start |
| Navigator.App.Valid | src/app.rs:33-45 | in a valid session the list selection is present exactly when there are entries, the cursor is within the list, and there is a directory to open exactly when the entry under the cursor is a directory |
| Navigator.App.EnterTarget | src/app.rs:87-90 | there is a directory to open exactly when the selection is within the list and on a directory, and it is that entry's path |
| Navigator.App.constructor | src/app.rs:19-30 | a new session shows the starting path loaded, keeps the session invariant and is not asked to quit |
| Navigator.App.LoadDirectory | src/app.rs:33-45 | the session shows the path, its scan and the scan's total, with the cursor on the first entry, or on nothing when there are no entries; the quit flag is unchanged |
| Navigator.App.Next | src/app.rs:48-64 | on an empty list nothing changes; otherwise both cursor fields move to `NextIndex` and nothing else changes; the session invariant is kept |
| Navigator.App.Previous | src/app.rs:67-83 | on an empty list nothing changes; otherwise both cursor fields move to `PrevIndex` and nothing else changes; the session invariant is kept |
| Navigator.App.EnterDirectory | src/app.rs:86-95 | with a directory selected within the list, that directory is loaded; otherwise nothing changes |
| Navigator.App.GoUp | src/app.rs:98-102 | the parent of the current path is loaded; with no parent nothing changes |
| Navigator.App.Refresh | src/app.rs:105-108 | the current path is loaded again from the filesystem as it is now |
| Navigator.App.Quit | src/app.rs:111-113 | the session is asked to quit and nothing else changes |
| Navigator.EnterThenGoUp | src/app.rs:86-102 | opening the first entry when it is a directory and then going up makes the starting directory the current path again, with the same entries and total, when the filesystem has not changed |
| Navigator.UpFromCurrentDir | src/app.rs:98-102 | started at `.`, going up reaches the empty path, which lists nothing and has no parent |

## Left out

- The terminal interface (`tui.rs`): drawing, the event loop and its key table, which only call the `App` methods modelled here.
- The non-interactive report (`cli.rs`), the command-line arguments (`args.rs`) and `main.rs`: they print and dispatch, and hold no logic beyond calls into the modelled core.
- The real filesystem: `read_dir`, `metadata`, `is_file`, `is_dir` and the directory walk are read from an explicit tree (`FsModel`) passed as an argument.
- Symbolic links: no node is a link, so following or not following them makes no difference here.
- Duplicate names in one listing: a listed child is measured by its own node, not by looking its path up again, as names in a real directory are unique.
- The order in which a real directory lists its entries: the model takes the listing's order as given.
- Parallel measuring: the parallel map keeps index order, so it is a sequential map over the listing.
- Scanner.SortBySizeDesc: the standard library's stable sort uses a different algorithm; the model sorts by insertion. `StableSortUnique` shows every stable sort by size gives the same list, so the result is the same.
- Scanner.CalculateSize: 64-bit overflow of the sum is not modelled; sizes are unbounded naturals.
- Scanner.TotalSize: 64-bit overflow of the sum is not modelled.
- Utils.ProgressBar: takes the filled cell count; the floating-point percentage and its rounding that produce that count are not modelled.
- Utils.ApplyColor: how the terminal renders a colour is not modelled; colours are enumeration values.
- Navigator.App: the list widget's scroll offset is not modelled; only its selection is.
- Navigator.PrevIndex: with a selection beyond the end of the list, `previous` moves it down by one and may leave it beyond the end, as the source does; the contract says nothing about that case.
- Search and list permission are one flag: a directory whose listing cannot be read has no reachable children either, and one that can be listed is also searchable. A directory that can be searched but not listed (its children's paths resolve though the directory cannot be scanned), or listed but not searched (its children are listed but cannot be measured, so they come out with size 0 and not as directories), is not modelled.
- Entry names are not checked to be well formed: a real listing never yields an empty name, `.`, `..` or a name holding `/`, and only names from a listing are joined to paths, so `Join` is Rust's `join` on every name it meets.
- Entry names are already strings here; the lossy conversion of a name that is not valid UTF-8 is not modelled.
- `..` components are resolved lexically inside the tree (`..` at the root stays at the root); how the OS resolves them through links is not modelled.
