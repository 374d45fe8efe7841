/**
 * An abstract filesystem standing in for `std::fs` and `std::path`.
 *
 * A filesystem is a tree of nodes with a current working directory. Directory
 * reads, metadata reads and individual directory entries may fail; each failure
 * is a value in the tree, so that the scanner's tolerance of it can be stated.
 * Symbolic links are not part of this model: no node is a link.
 */
module FsModel {
  import opened Options

  /** One node of the tree. `meta` is the length metadata reports, or None
      when the metadata cannot be read. `Special` is anything else that is
      neither a regular file nor a directory (a fifo, a socket, a device). */
  datatype Node = File(meta: Option<nat>) | Dir(contents: Listing) | Special

  /** What `read_dir` gives for a directory: an error, or the entries in
      enumeration order. */
  datatype Listing = Denied | Entries(slots: seq<Slot>)

  /** One item of the `read_dir` iterator: a readable entry, or an error. */
  datatype Slot = Good(name: string, node: Node) | Bad

  /** The whole filesystem: the root directory and the process's working
      directory, given as the names leading to it from the root. */
  datatype FileSystem = FileSystem(root: Node, cwd: seq<string>)

  /** The components Rust's `Path::components` yields, without the leading
      root: `/` is `absolute`, `.` is `CurDir`, `..` is `ParentDir`. */
  datatype Component = CurDir | ParentDir | Normal(name: string)

  /** A `PathBuf`, held as its components (an interior `.` is not a component,
      as in Rust). The empty relative path is Rust's `""`. */
  datatype Path = Path(absolute: bool, comps: seq<Component>)

  /** `p.join(name)` for a plain entry name. */
  function Join(p: Path, name: string): (r: Path)
    ensures r.absolute == p.absolute && |r.comps| == |p.comps| + 1
    ensures r.comps[..|p.comps|] == p.comps && r.comps[|p.comps|] == Normal(name)
  {
    Path(p.absolute, p.comps + [Normal(name)])
  }

  /** `Path::parent`: the path without its last component, or None when only
      the root (or nothing) is left. */
  function Parent(p: Path): (r: Option<Path>)
    ensures r.None? <==> p.comps == []
    ensures r.Some? ==> r.value.absolute == p.absolute && |r.value.comps| + 1 == |p.comps|
    ensures r.Some? ==> r.value.comps + [p.comps[|p.comps| - 1]] == p.comps
  {
    if p.comps == [] then None else Some(Path(p.absolute, p.comps[..|p.comps| - 1]))
  }

  /** The file name of `p`, or empty when there is none: the last component
      when it is a plain name, and the empty string otherwise. */
  function FileName(p: Path): (r: string)
    ensures (p.comps != [] && p.comps[|p.comps| - 1].Normal?) ==> r == p.comps[|p.comps| - 1].name
    ensures (p.comps == [] || !p.comps[|p.comps| - 1].Normal?) ==> r == ""
  {
    if p.comps != [] && p.comps[|p.comps| - 1].Normal? then p.comps[|p.comps| - 1].name else ""
  }

  /** Joining then taking the parent gives the path back; the joined name is
      the file name. */
  lemma JoinParent(p: Path, name: string)
    ensures Parent(Join(p, name)) == Some(p)
    ensures FileName(Join(p, name)) == name
  {
    assert Join(p, name).comps[..|p.comps|] == p.comps;
  }

  /** The first readable entry called `name`, if any. */
  function ChildNamed(slots: seq<Slot>, name: string): (r: Option<Node>)
    ensures r.Some? ==> exists i :: 0 <= i < |slots| && slots[i] == Good(name, r.value)
    ensures r.None? ==> forall i :: 0 <= i < |slots| ==> !(slots[i].Good? && slots[i].name == name)
  {
    if slots == [] then None
    else if slots[0].Good? && slots[0].name == name then Some(slots[0].node)
    else
      var r := ChildNamed(slots[1..], name);
      assert r.Some? ==> exists i :: 0 <= i < |slots[1..]| && slots[1..][i] == Good(name, r.value);
      assert forall i :: 0 <= i < |slots[1..]| ==> slots[1..][i] == slots[i + 1];
      r
  }

  /** Follows one component from the chain of directories `stack` (root first).
      `.` stays; `..` drops the last directory but never the root, and only
      out of a directory that can be searched; a name descends into the child
      of that name, found only in a directory that can be searched. Search
      and list permission are one flag here: a directory can be searched
      exactly when its listing can be read. */
  function Step(stack: seq<Node>, c: Component): (r: Option<seq<Node>>)
    requires stack != []
    ensures r.Some? ==> r.value != [] && r.value[0] == stack[0] && |r.value| <= |stack| + 1
    ensures c == CurDir ==> r == Some(stack)
    ensures c == ParentDir ==> (r.Some? <==> (stack[|stack| - 1].Dir? && stack[|stack| - 1].contents.Entries?))
    ensures c == ParentDir && r.Some? ==> r.value == stack[..if |stack| == 1 then 1 else |stack| - 1]
    ensures c.Normal? ==> (r.Some? <==>
      (stack[|stack| - 1].Dir? && stack[|stack| - 1].contents.Entries? &&
       ChildNamed(stack[|stack| - 1].contents.slots, c.name).Some?))
    ensures c.Normal? && r.Some? ==>
      r.value == stack + [ChildNamed(stack[|stack| - 1].contents.slots, c.name).value]
  {
    var top := stack[|stack| - 1];
    match c
    case CurDir => Some(stack)
    case ParentDir =>
      if !(top.Dir? && top.contents.Entries?) then None
      else if |stack| == 1 then Some(stack)
      else Some(stack[..|stack| - 1])
    case Normal(n) =>
      if top.Dir? && top.contents.Entries? then
        match ChildNamed(top.contents.slots, n)
        case None => None
        case Some(child) => Some(stack + [child])
      else None
  }

  /** Follows a list of components, failing as soon as one cannot be followed. */
  function Follow(stack: seq<Node>, comps: seq<Component>): (r: Option<seq<Node>>)
    requires stack != []
    ensures r.Some? ==> r.value != [] && r.value[0] == stack[0]
    ensures r.Some? ==> |r.value| <= |stack| + |comps|
    decreases |comps|
  {
    if comps == [] then Some(stack)
    else
      match Step(stack, comps[0])
      case None => None
      case Some(next) => Follow(next, comps[1..])
  }

  /** The node a path names, or None when the OS would report an error. A
      relative path starts at the working directory; the empty path names
      nothing. */
  function Lookup(fs: FileSystem, p: Path): (r: Option<Node>)
    ensures (!p.absolute && p.comps == []) ==> r.None?
  {
    if !p.absolute && p.comps == [] then None
    else
      var start := if p.absolute then Some([fs.root])
                   else Follow([fs.root], seq(|fs.cwd|, i requires 0 <= i < |fs.cwd| => Normal(fs.cwd[i])));
      match start
      case None => None
      case Some(stack) =>
        match Follow(stack, p.comps)
        case None => None
        case Some(s) => Some(s[|s| - 1])
  }

  /** Following one more component is following the path so far and then
      taking one step. */
  lemma {:induction false} FollowSnoc(stack: seq<Node>, comps: seq<Component>, c: Component)
    requires stack != []
    ensures Follow(stack, comps + [c]) ==
      match Follow(stack, comps)
      case None => None
      case Some(s) => Step(s, c)
    decreases |comps|
  {
    if comps == [] {
      assert Follow(stack, [c]) == match Step(stack, c)
        case None => None
        case Some(next) => Follow(next, []);
    } else {
      assert (comps + [c])[0] == comps[0];
      assert (comps + [c])[1..] == comps[1..] + [c];
      match Step(stack, comps[0])
      case None =>
      case Some(next) => FollowSnoc(next, comps[1..], c);
    }
  }

}
