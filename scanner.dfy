/**
 * The directory scanner: `DirEntry`, `calculate_size`, `scan_directory` and
 * `calculate_total_size`.
 *
 * `calculate_size` is modelled as the source writes it, a pipeline over the
 * items a depth-first walk yields, and proved equal to a plain recursive sum
 * of the regular files in the tree. `scan_directory`'s parallel map keeps
 * index order, so it is a sequential map here; its in-place sort by size is an
 * in-place stable insertion sort on an array, proved equal to `SortDesc`,
 * which is proved sorted, stable and a permutation.
 */
module Scanner {
  import opened Options
  import opened FsModel

  /** One immediate child of a scanned directory. */
  datatype DirEntry = DirEntry(path: Path, name: string, size: nat, isDir: bool)

  // ---------------------------------------------------------------------------
  // calculate_size
  // ---------------------------------------------------------------------------

  /** One item of the directory walk: an entry, or an error the walk reports
      and continues past. */
  datatype WalkItem = Visit(node: Node) | WalkError

  /** The items a depth-first, pre-order walk rooted at `n` yields: `n` itself,
      then its descendants in listing order. A directory that cannot be read
      yields itself and then an error. */
  function WalkFrom(n: Node): (r: seq<WalkItem>)
    ensures r != [] && r[0] == Visit(n)
    ensures !n.Dir? ==> |r| == 1
    decreases n, 1
  {
    [Visit(n)] + WalkBelow(n)
  }

  /** The items of the walk after its root. */
  function WalkBelow(n: Node): (r: seq<WalkItem>)
    ensures !n.Dir? ==> r == []
    ensures n == Dir(Denied) ==> r == [WalkError]
    ensures n.Dir? && n.contents.Entries? ==>
      forall i :: 0 <= i < |n.contents.slots| && n.contents.slots[i].Good? ==>
        Visit(n.contents.slots[i].node) in r
    decreases n, 0
  {
    match n
    case Dir(Entries(slots)) => WalkSlots(slots)
    case Dir(Denied) => [WalkError]
    case _ => []
  }

  /** The walk over a listing: every entry's walk in turn; an entry that
      cannot be read is one error. Every readable child is visited. */
  function WalkSlots(slots: seq<Slot>): (r: seq<WalkItem>)
    ensures |r| >= |slots|
    ensures forall i :: 0 <= i < |slots| && slots[i].Good? ==> Visit(slots[i].node) in r
    decreases slots, 2
  {
    if slots == [] then []
    else
      var head := match slots[0]
        case Good(_, child) => WalkFrom(child)
        case Bad => [WalkError];
      var r := head + WalkSlots(slots[1..]);
      assert forall i :: 1 <= i < |slots| ==> slots[i] == slots[1..][i - 1];
      r
  }

  /** Keeps the entries the walk could read and drops its errors. */
  function OkNodes(items: seq<WalkItem>): (r: seq<Node>)
    ensures |r| <= |items|
    ensures forall i :: 0 <= i < |items| && items[i].Visit? ==> items[i].node in r
    ensures forall n :: n in r ==> Visit(n) in items
  {
    if items == [] then []
    else
      var r := (if items[0].Visit? then [items[0].node] else []) + OkNodes(items[1..]);
      assert forall i :: 1 <= i < |items| ==> items[i] == items[1..][i - 1];
      r
  }

  /** Keeps the regular files. */
  function RegularFiles(nodes: seq<Node>): (r: seq<Node>)
    ensures forall i :: 0 <= i < |r| ==> r[i].File? && r[i] in nodes
    ensures forall i :: 0 <= i < |nodes| && nodes[i].File? ==> nodes[i] in r
  {
    if nodes == [] then []
    else
      var r := (if nodes[0].File? then [nodes[0]] else []) + RegularFiles(nodes[1..]);
      assert forall i :: 1 <= i < |nodes| ==> nodes[i] == nodes[1..][i - 1];
      r
  }

  /** The length metadata reports, or 0 when it cannot be read. */
  function LenOrZero(meta: Option<nat>): nat {
    match meta
    case Some(len) => len
    case None => 0
  }

  /** Each file's length by its metadata, or 0 when the metadata cannot be read. */
  function Lengths(files: seq<Node>): (r: seq<nat>)
    requires forall i :: 0 <= i < |files| ==> files[i].File?
    ensures |r| == |files|
    ensures forall i :: 0 <= i < |files| ==> r[i] == LenOrZero(files[i].meta)
  {
    seq(|files|, i requires 0 <= i < |files| => LenOrZero(files[i].meta))
  }

  /** `sum()` of naturals. */
  function Sum(xs: seq<nat>): nat {
    if xs == [] then 0 else xs[0] + Sum(xs[1..])
  }

  /** The whole walk pipeline of `calculate_size` applied to walk items. */
  function WalkTotal(items: seq<WalkItem>): nat {
    Sum(Lengths(RegularFiles(OkNodes(items))))
  }

  /** `Path::is_file`: a regular file whose metadata can be read. On such a
      node the direct answer and the walk pipeline agree. */
  predicate IsFile(n: Node)
    ensures IsFile(n) ==> n.File? && WalkTotal(WalkFrom(n)) == LenOrZero(n.meta)
  {
    VisitTotal(n);
    assert WalkFrom(n) == [Visit(n)] + WalkBelow(n);
    n.File? && n.meta.Some?
  }

  /** The reference meaning of a node's size: the total length of the regular
      files in its subtree. Directories and special files contribute nothing
      themselves; an unreadable directory, entry or metadata contributes 0. */
  function FileBytes(n: Node): nat
    decreases n
  {
    match n
    case File(meta) => LenOrZero(meta)
    case Dir(Entries(slots)) => SlotsBytes(slots)
    case _ => 0
  }

  function SlotsBytes(slots: seq<Slot>): nat
    decreases slots
  {
    if slots == [] then 0
    else
      (match slots[0]
       case Good(_, child) => FileBytes(child)
       case Bad => 0)
      + SlotsBytes(slots[1..])
  }

  /** `calculate_size`: a regular file's metadata length; otherwise the walk
      pipeline. Its value is the total length of the regular files beneath. */
  function CalculateSize(n: Node): (size: nat)
    ensures size == FileBytes(n)
    ensures n.File? ==> size == LenOrZero(n.meta)
  {
    WalkTotalIsFileBytes(n);
    if IsFile(n) then n.meta.value else WalkTotal(WalkFrom(n))
  }

  lemma {:induction false} SumConcat(a: seq<nat>, b: seq<nat>)
    ensures Sum(a + b) == Sum(a) + Sum(b)
    decreases |a|
  {
    if a != [] {
      assert (a + b)[1..] == a[1..] + b;
      SumConcat(a[1..], b);
    } else {
      assert a + b == b;
    }
  }

  lemma {:induction false} OkNodesConcat(a: seq<WalkItem>, b: seq<WalkItem>)
    ensures OkNodes(a + b) == OkNodes(a) + OkNodes(b)
    decreases |a|
  {
    if a != [] {
      assert (a + b)[1..] == a[1..] + b;
      OkNodesConcat(a[1..], b);
    } else {
      assert a + b == b;
    }
  }

  lemma {:induction false} RegularFilesConcat(a: seq<Node>, b: seq<Node>)
    ensures RegularFiles(a + b) == RegularFiles(a) + RegularFiles(b)
    decreases |a|
  {
    if a != [] {
      assert (a + b)[1..] == a[1..] + b;
      RegularFilesConcat(a[1..], b);
    } else {
      assert a + b == b;
    }
  }

  /** The walk pipeline distributes over concatenation of walk items. */
  lemma WalkTotalConcat(a: seq<WalkItem>, b: seq<WalkItem>)
    ensures WalkTotal(a + b) == WalkTotal(a) + WalkTotal(b)
  {
    OkNodesConcat(a, b);
    RegularFilesConcat(OkNodes(a), OkNodes(b));
    var fa, fb := RegularFiles(OkNodes(a)), RegularFiles(OkNodes(b));
    assert Lengths(fa + fb) == Lengths(fa) + Lengths(fb);
    SumConcat(Lengths(fa), Lengths(fb));
  }

  /** The walk pipeline counts a visited node by its length exactly when it
      is a regular file, and an error as 0. */
  lemma VisitTotal(n: Node)
    ensures WalkTotal([Visit(n)]) == if n.File? then LenOrZero(n.meta) else 0
    ensures WalkTotal([WalkError]) == 0
  {
    assert OkNodes([Visit(n)]) == [n];
    assert OkNodes([WalkError]) == [];
    assert RegularFiles([]) == [] && Sum([]) == 0;
    if n.File? {
      assert RegularFiles([n]) == [n];
      assert Lengths([n]) == [LenOrZero(n.meta)];
      assert Sum([LenOrZero(n.meta)]) == LenOrZero(n.meta) + Sum([]);
    } else {
      assert RegularFiles([n]) == [] + RegularFiles([]);
    }
  }

  /** The walk pipeline over a node's walk is the recursive file total: every
      regular file beneath is counted once, everything else adds 0. */
  lemma {:induction false} WalkTotalIsFileBytes(n: Node)
    ensures WalkTotal(WalkFrom(n)) == FileBytes(n)
    decreases n, 1
  {
    WalkTotalConcat([Visit(n)], WalkBelow(n));
    VisitTotal(n);
    if n.Dir? && n.contents.Entries? {
      WalkSlotsTotal(n.contents.slots);
    }
  }

  lemma {:induction false} WalkSlotsTotal(slots: seq<Slot>)
    ensures WalkTotal(WalkSlots(slots)) == SlotsBytes(slots)
    decreases slots, 2
  {
    if slots != [] {
      var head := if slots[0].Good? then WalkFrom(slots[0].node) else [WalkError];
      WalkTotalConcat(head, WalkSlots(slots[1..]));
      if slots[0].Good? {
        WalkTotalIsFileBytes(slots[0].node);
      } else {
        VisitTotal(Special);
      }
      WalkSlotsTotal(slots[1..]);
    }
  }

  // ---------------------------------------------------------------------------
  // calculate_total_size
  // ---------------------------------------------------------------------------

  /** `calculate_total_size`: the sum of the entries' sizes. */
  function TotalSize(items: seq<DirEntry>): (t: nat)
    ensures items == [] ==> t == 0
    ensures forall i :: 0 <= i < |items| ==> items[i].size <= t
  {
    if items == [] then 0
    else
      var t := items[0].size + TotalSize(items[1..]);
      assert forall i :: 1 <= i < |items| ==> items[i] == items[1..][i - 1];
      t
  }

  lemma {:induction false} TotalSizeConcat(a: seq<DirEntry>, b: seq<DirEntry>)
    ensures TotalSize(a + b) == TotalSize(a) + TotalSize(b)
    decreases |a|
  {
    if a != [] {
      assert (a + b)[1..] == a[1..] + b;
      TotalSizeConcat(a[1..], b);
    } else {
      assert a + b == b;
    }
  }

  /** When `b` is a rearrangement of `a`, the position `k` in `b` of `a`'s first
      element splits `b` into a rearrangement of the rest of `a`. */
  lemma PermutationSplit(a: seq<DirEntry>, b: seq<DirEntry>) returns (k: nat)
    requires a != [] && multiset(a) == multiset(b)
    ensures k < |b| && b[k] == a[0]
    ensures b == b[..k] + [a[0]] + b[k + 1..]
    ensures multiset(a[1..]) == multiset(b[..k] + b[k + 1..])
  {
    assert a[0] in multiset(b) by { assert a == [a[0]] + a[1..]; }
    var i :| 0 <= i < |b| && b[i] == a[0];
    k := i;
    assert b == b[..k] + [a[0]] + b[k + 1..];
    assert a == [a[0]] + a[1..];
    calc {
      multiset(b[..k] + b[k + 1..]);
      multiset(b[..k]) + multiset(b[k + 1..]);
      { assert multiset(b) == multiset(b[..k]) + multiset{a[0]} + multiset(b[k + 1..]); }
      multiset(b) - multiset{a[0]};
      multiset(a) - multiset{a[0]};
      multiset(a[1..]);
    }
  }

  /** The total does not depend on the order of the entries. */
  lemma {:induction false} TotalSizePermutation(a: seq<DirEntry>, b: seq<DirEntry>)
    requires multiset(a) == multiset(b)
    ensures TotalSize(a) == TotalSize(b)
    decreases |a|
  {
    if a == [] {
      assert |b| == |multiset(b)| == 0;
    } else {
      var k := PermutationSplit(a, b);
      TotalSizePermutation(a[1..], b[..k] + b[k + 1..]);
      TotalSizeConcat(b[..k], b[k + 1..]);
      TotalSizeConcat(b[..k] + [a[0]], b[k + 1..]);
      TotalSizeConcat(b[..k], [a[0]]);
    }
  }

  // ---------------------------------------------------------------------------
  // The stable descending sort of `scan_directory`
  // ---------------------------------------------------------------------------

  /** Non-increasing by size. */
  ghost predicate SortedDesc(s: seq<DirEntry>) {
    forall i, j :: 0 <= i < j < |s| ==> s[i].size >= s[j].size
  }

  /** The entries of `s` whose size is `k`, in their order in `s`. A sort is
      stable when it keeps every such subsequence as it was. */
  function WithSize(s: seq<DirEntry>, k: nat): seq<DirEntry> {
    if s == [] then []
    else WithSize(s[..|s| - 1], k) + (if s[|s| - 1].size == k then [s[|s| - 1]] else [])
  }

  /** Inserts `x` into `s` from the back: `x` moves in front of every trailing
      entry that is strictly smaller, and stays behind any of equal size. */
  function InsertBack(s: seq<DirEntry>, x: DirEntry): seq<DirEntry> {
    if s == [] || s[|s| - 1].size >= x.size then s + [x]
    else InsertBack(s[..|s| - 1], x) + [s[|s| - 1]]
  }

  /** The stable sort by size, largest first, that the scanner applies:
      insertion of each entry in turn into the sorted prefix. */
  function SortDesc(s: seq<DirEntry>): seq<DirEntry> {
    if s == [] then [] else InsertBack(SortDesc(s[..|s| - 1]), s[|s| - 1])
  }

  /** Every entry of `InsertBack(s, x)` is `x` or an entry of `s`, and there
      are as many of each as before. */
  lemma {:induction false} InsertBackPermutation(s: seq<DirEntry>, x: DirEntry)
    ensures multiset(InsertBack(s, x)) == multiset(s) + multiset{x}
    ensures forall y :: y in InsertBack(s, x) ==> y == x || y in s
    decreases |s|
  {
    if s != [] && s[|s| - 1].size < x.size {
      var init, last := s[..|s| - 1], s[|s| - 1];
      assert s == init + [last];
      InsertBackPermutation(init, x);
    }
  }

  lemma {:induction false} InsertBackSorted(s: seq<DirEntry>, x: DirEntry)
    requires SortedDesc(s)
    ensures SortedDesc(InsertBack(s, x))
    decreases |s|
  {
    if s != [] && s[|s| - 1].size < x.size {
      var init, last := s[..|s| - 1], s[|s| - 1];
      InsertBackSorted(init, x);
      InsertBackPermutation(init, x);
      var t := InsertBack(init, x);
      forall y | y in t ensures y.size >= last.size {
        if y != x {
          var m :| 0 <= m < |init| && init[m] == y;
          assert s[m] == y;
        }
      }
      assert InsertBack(s, x) == t + [last];
    }
  }

  /** `SortDesc` orders by size, non-increasing, and is a permutation. */
  lemma {:induction false} SortDescSorted(s: seq<DirEntry>)
    ensures SortedDesc(SortDesc(s))
    ensures multiset(SortDesc(s)) == multiset(s)
    ensures |SortDesc(s)| == |s|
    decreases |s|
  {
    if s != [] {
      SortDescSorted(s[..|s| - 1]);
      InsertBackSorted(SortDesc(s[..|s| - 1]), s[|s| - 1]);
      InsertBackPermutation(SortDesc(s[..|s| - 1]), s[|s| - 1]);
      assert s == s[..|s| - 1] + [s[|s| - 1]];
      assert |multiset(SortDesc(s))| == |multiset(s)|;
    }
  }

  /** `InsertBack` puts `x` after every entry of its size, so it extends the
      subsequence of that size at its end and leaves every other one alone. */
  lemma {:induction false} InsertBackStable(s: seq<DirEntry>, x: DirEntry, k: nat)
    ensures WithSize(InsertBack(s, x), k) == WithSize(s, k) + (if x.size == k then [x] else [])
    decreases |s|
  {
    if s == [] || s[|s| - 1].size >= x.size {
      WithSizeSnoc(s, x, k);
    } else {
      var init, last := s[..|s| - 1], s[|s| - 1];
      var t := InsertBack(init, x);
      assert InsertBack(s, x) == t + [last];
      assert WithSize(s, k) == WithSize(init, k) + (if last.size == k then [last] else []);
      InsertBackStable(init, x, k);
      WithSizeSnoc(t, last, k);
      if last.size == k {
        assert WithSize(t, k) == WithSize(init, k);
      } else if x.size == k {
        assert WithSize(t + [last], k) == WithSize(t, k);
      }
    }
  }

  /** `SortDesc` is stable: entries of equal size keep their input order. */
  lemma {:induction false} SortDescStable(s: seq<DirEntry>, k: nat)
    ensures WithSize(SortDesc(s), k) == WithSize(s, k)
    decreases |s|
  {
    if s != [] {
      SortDescStable(s[..|s| - 1], k);
      InsertBackStable(SortDesc(s[..|s| - 1]), s[|s| - 1], k);
    }
  }

  lemma WithSizeSnoc(s: seq<DirEntry>, x: DirEntry, k: nat)
    ensures WithSize(s + [x], k) == WithSize(s, k) + (if x.size == k then [x] else [])
  {
    assert (s + [x])[..|s|] == s;
  }

  /** Every entry of `WithSize(s, k)` is an entry of `s` of size `k`. */
  lemma {:induction false} WithSizeEntries(s: seq<DirEntry>, k: nat)
    ensures forall y :: y in WithSize(s, k) ==> y in s && y.size == k
    decreases |s|
  {
    if s != [] {
      WithSizeEntries(s[..|s| - 1], k);
      assert s == s[..|s| - 1] + [s[|s| - 1]];
    }
  }

  /** In a sorted sequence no entry is smaller than the last. */
  lemma AtLeastLast(u: seq<DirEntry>, y: DirEntry)
    requires SortedDesc(u) && y in u
    ensures y.size >= u[|u| - 1].size
  {
    var j :| 0 <= j < |u| && u[j] == y;
    if j < |u| - 1 {
      assert u[j].size >= u[|u| - 1].size;
    }
  }

  /** If `u` has the same entries of size `x.size` as `s + [x]`, then `x` is
      in `u`, so it is no smaller than the last entry of a sorted `u`. */
  lemma LastIsSmallest(s: seq<DirEntry>, x: DirEntry, u: seq<DirEntry>)
    requires SortedDesc(u)
    requires WithSize(s + [x], x.size) == WithSize(u, x.size)
    ensures x.size >= u[|u| - 1].size
  {
    WithSizeSnoc(s, x, x.size);
    WithSizeEntries(u, x.size);
    assert x in WithSize(u, x.size);
    AtLeastLast(u, x);
  }

  /** Removing last entries of equal size keeps the subsequences of each size
      equal. */
  lemma DropLastEqual(s: seq<DirEntry>, x: DirEntry, t: seq<DirEntry>, y: DirEntry, k: nat)
    requires x.size == y.size
    requires WithSize(s + [x], k) == WithSize(t + [y], k)
    ensures WithSize(s, k) == WithSize(t, k)
  {
    WithSizeSnoc(s, x, k);
    WithSizeSnoc(t, y, k);
    var w := WithSize(s + [x], k);
    var d := if x.size == k then 1 else 0;
    assert w[..|w| - d] == WithSize(s, k);
    assert w[..|w| - d] == WithSize(t, k);
  }

  /** Two sequences sorted by size, of the same length and with the same
      entries of every size in the same order, are equal. */
  lemma {:induction false} SortedStableEqual(t: seq<DirEntry>, u: seq<DirEntry>)
    requires SortedDesc(t) && SortedDesc(u) && |t| == |u|
    requires forall k :: WithSize(t, k) == WithSize(u, k)
    ensures t == u
    decreases |t|
  {
    if t != [] {
      var n := |t| - 1;
      var tl, ul := t[n], u[n];
      var ti, ui := t[..n], u[..n];
      assert t == ti + [tl] && u == ui + [ul];
      LastIsSmallest(ti, tl, u);
      LastIsSmallest(ui, ul, t);
      forall k ensures WithSize(ti, k) == WithSize(ui, k) {
        DropLastEqual(ti, tl, ui, ul, k);
      }
      SortedStableEqual(ti, ui);
      WithSizeSnoc(ti, tl, tl.size);
      WithSizeSnoc(ui, ul, tl.size);
      var w := WithSize(t, tl.size);
      assert w[|w| - 1] == tl && w[|w| - 1] == ul;
    }
  }

  /** `SortDesc` is the only ordering of `s` that is sorted by size and keeps
      entries of equal size in input order; so any stable sort by the same
      key, whatever its algorithm, produces it. */
  lemma StableSortUnique(s: seq<DirEntry>, t: seq<DirEntry>)
    requires multiset(t) == multiset(s) && SortedDesc(t)
    requires forall k :: WithSize(t, k) == WithSize(s, k)
    ensures t == SortDesc(s)
  {
    SortDescSorted(s);
    forall k ensures WithSize(t, k) == WithSize(SortDesc(s), k) {
      SortDescStable(s, k);
    }
    assert |t| == |multiset(t)| == |multiset(s)| == |s|;
    SortedStableEqual(t, SortDesc(s));
  }

  /** `InsertBack` puts `x` right after the last entry at least as large as
      it, in front of the run of strictly smaller entries that ends `s`. */
  lemma {:induction false} InsertBackAt(s: seq<DirEntry>, x: DirEntry, j: nat)
    requires j <= |s| && (j == 0 || s[j - 1].size >= x.size)
    requires forall m :: j <= m < |s| ==> s[m].size < x.size
    ensures InsertBack(s, x) == s[..j] + [x] + s[j..]
    decreases |s| - j
  {
    if j < |s| {
      var init, last := s[..|s| - 1], s[|s| - 1];
      assert last.size < x.size;
      assert InsertBack(s, x) == InsertBack(init, x) + [last];
      assert init[..j] == s[..j] && (j == 0 || init[j - 1].size >= x.size);
      InsertBackAt(init, x, j);
      assert s[j..] == init[j..] + [last];
    }
  }

  /** The array contents after a pass: the prefix before `j`, then `x`, then
      the rest of the prefix shifted up by one. */
  lemma Shifted(b: seq<DirEntry>, sorted: seq<DirEntry>, x: DirEntry, j: nat)
    requires j <= |sorted| < |b|
    requires forall m :: 0 <= m < j ==> b[m] == sorted[m]
    requires b[j] == x
    requires forall m :: j < m <= |sorted| ==> b[m] == sorted[m - 1]
    ensures b[..|sorted| + 1] == sorted[..j] + [x] + sorted[j..]
  {
  }

  /** One pass of the insertion sort: moves `a[i]` back past the strictly
      smaller entries of the prefix `a[..i]`. */
  method InsertAt(a: array<DirEntry>, i: nat)
    requires i < a.Length
    modifies a
    ensures a[..i + 1] == InsertBack(old(a[..i]), old(a[i]))
    ensures a[i + 1..] == old(a[i + 1..])
  {
    ghost var sorted := a[..i];
    var x := a[i];
    var j := i;
    while j > 0 && a[j - 1].size < x.size
      invariant 0 <= j <= i
      invariant a[..j] == sorted[..j]
      invariant forall m :: j < m <= i ==> a[m] == sorted[m - 1]
      invariant forall m :: j <= m < i ==> sorted[m].size < x.size
      invariant a[i + 1..] == old(a[i + 1..])
    {
      a[j] := a[j - 1];
      j := j - 1;
    }
    a[j] := x;
    InsertBackAt(sorted, x, j);
    Shifted(a[..], sorted, x, j);
  }

  /** Sorting one more entry of the input is one more insertion. */
  lemma SortDescPrefix(s: seq<DirEntry>, i: nat)
    requires i < |s|
    ensures SortDesc(s[..i + 1]) == InsertBack(SortDesc(s[..i]), s[i])
  {
    assert s[..i + 1][..i] == s[..i];
  }

  /** The scanner's sort of its entries by size, largest first, in place. */
  method SortBySizeDesc(a: array<DirEntry>)
    modifies a
    ensures a[..] == SortDesc(old(a[..]))
  {
    ghost var input := a[..];
    var i := 0;
    while i < a.Length
      invariant 0 <= i <= a.Length
      invariant a[..i] == SortDesc(input[..i])
      invariant a[i..] == input[i..]
    {
      ghost var rest := a[i..];
      assert rest[0] == input[i] && rest[1..] == input[i + 1..];
      InsertAt(a, i);
      SortDescPrefix(input, i);
      i := i + 1;
    }
    assert input[..a.Length] == input;
  }

  // ---------------------------------------------------------------------------
  // scan_directory
  // ---------------------------------------------------------------------------

  /** The readable entries of a listing, in listing order; entries the
      listing could not read are dropped. */
  function Listed(slots: seq<Slot>): (r: seq<Slot>)
    ensures forall i :: 0 <= i < |r| ==> r[i].Good? && r[i] in slots
    ensures forall i :: 0 <= i < |slots| && slots[i].Good? ==> slots[i] in r
    ensures |r| <= |slots|
  {
    if slots == [] then []
    else
      var r := (if slots[0].Good? then [slots[0]] else []) + Listed(slots[1..]);
      assert forall i :: 1 <= i < |slots| ==> slots[i] == slots[1..][i - 1];
      r
  }

  /** Listing keeps order: the readable entries of two listings joined are
      those of the first followed by those of the second. */
  lemma {:induction false} ListedConcat(a: seq<Slot>, b: seq<Slot>)
    ensures Listed(a + b) == Listed(a) + Listed(b)
    decreases |a|
  {
    if a == [] {
      assert a + b == b;
    } else {
      assert (a + b)[1..] == a[1..] + b;
      ListedConcat(a[1..], b);
    }
  }

  /** A listing without errors is kept whole. */
  lemma {:induction false} ListedAllGood(slots: seq<Slot>)
    requires forall i :: 0 <= i < |slots| ==> slots[i].Good?
    ensures Listed(slots) == slots
    decreases |slots|
  {
    if slots != [] {
      ListedAllGood(slots[1..]);
    }
  }

  /** The path of a listed child names that child: looking up the directory
      joined with the name reaches the first readable entry of that name, the
      node `MakeEntry` measures when names are unique. */
  lemma ListedChildResolves(fs: FileSystem, p: Path, slots: seq<Slot>, name: string, child: Node)
    requires ReadDir(fs, p) == Some(slots)
    requires ChildNamed(slots, name) == Some(child)
    ensures Lookup(fs, Join(p, name)) == Some(child)
  {
    var start := if p.absolute then Some([fs.root])
                 else Follow([fs.root], seq(|fs.cwd|, i requires 0 <= i < |fs.cwd| => Normal(fs.cwd[i])));
    var stack := start.value;
    var s := Follow(stack, p.comps).value;
    assert s[|s| - 1] == Dir(Entries(slots));
    FollowSnoc(stack, p.comps, Normal(name));
    assert Follow(stack, Join(p, name).comps) == Some(s + [child]);
  }

  /** `..` cannot be taken out of a directory that cannot be searched: a path
      that climbs out of an unlistable directory cannot be read either. */
  lemma UpOutOfUnlistable(fs: FileSystem, p: Path)
    requires Lookup(fs, p) == Some(Dir(Denied))
    ensures Lookup(fs, Path(p.absolute, p.comps + [ParentDir])).None?
    ensures ReadDir(fs, Path(p.absolute, p.comps + [ParentDir])).None?
  {
    var start := if p.absolute then Some([fs.root])
                 else Follow([fs.root], seq(|fs.cwd|, i requires 0 <= i < |fs.cwd| => Normal(fs.cwd[i])));
    FollowSnoc(start.value, p.comps, ParentDir);
  }

  /** The `DirEntry` for one listed child of `dir`. */
  function MakeEntry(dir: Path, child: Slot): (e: DirEntry)
    requires child.Good?
    ensures e.path == Join(dir, child.name) && Parent(e.path) == Some(dir)
    ensures e.name == child.name && e.name == FileName(e.path)
    ensures e.size == FileBytes(child.node)
    ensures e.isDir <==> child.node.Dir?
  {
    var path := Join(dir, child.name);
    JoinParent(dir, child.name);
    DirEntry(path, FileName(path), CalculateSize(child.node), child.node.Dir?)
  }

  /** The parallel measuring step: one entry per listed child, in
      listing order. */
  function MeasureAll(dir: Path, listed: seq<Slot>): (r: seq<DirEntry>)
    requires forall i :: 0 <= i < |listed| ==> listed[i].Good?
    ensures |r| == |listed|
    ensures forall i :: 0 <= i < |listed| ==> r[i] == MakeEntry(dir, listed[i])
  {
    seq(|listed|, i requires 0 <= i < |listed| => MakeEntry(dir, listed[i]))
  }

  /** What `read_dir` gives for `p`: the listing of a readable directory, or
      None when the call fails. */
  function ReadDir(fs: FileSystem, p: Path): (r: Option<seq<Slot>>)
    ensures r.Some? <==> (Lookup(fs, p).Some? && Lookup(fs, p).value.Dir? && Lookup(fs, p).value.contents.Entries?)
  {
    match Lookup(fs, p)
    case Some(Dir(Entries(slots))) => Some(slots)
    case _ => None
  }

  /** The result of `scan_directory(p)`: nothing when `p` cannot be read as a
      directory; otherwise every listed child, measured, ranked by size,
      largest first, ties in listing order. */
  function Scan(fs: FileSystem, p: Path): (r: seq<DirEntry>)
    ensures ReadDir(fs, p).None? ==> r == []
    ensures ReadDir(fs, p).Some? ==> multiset(r) == multiset(MeasureAll(p, Listed(ReadDir(fs, p).value)))
    ensures SortedDesc(r)
  {
    match ReadDir(fs, p)
    case None => []
    case Some(slots) =>
      SortDescSorted(MeasureAll(p, Listed(slots)));
      SortDesc(MeasureAll(p, Listed(slots)))
  }

  /** `scan_directory`: lists, measures in listing order, sorts in place. */
  method ScanDirectory(fs: FileSystem, p: Path) returns (items: seq<DirEntry>)
    ensures items == Scan(fs, p)
  {
    var listing := ReadDir(fs, p);
    if listing.None? {
      return [];
    }
    var paths := Listed(listing.value);
    var measured := MeasureAll(p, paths);
    var a := new DirEntry[|measured|](i requires 0 <= i < |measured| => measured[i]);
    assert a[..] == measured;
    SortBySizeDesc(a);
    items := a[..];
  }

  // ---------------------------------------------------------------------------
  // What a scan promises
  // ---------------------------------------------------------------------------

  function Paths(s: seq<DirEntry>): (r: seq<Path>)
    ensures |r| == |s| && forall i :: 0 <= i < |s| ==> r[i] == s[i].path
  {
    seq(|s|, i requires 0 <= i < |s| => s[i].path)
  }

  /** The paths of the listed children, in listing order. */
  function ChildPaths(dir: Path, listed: seq<Slot>): (r: seq<Path>)
    requires forall i :: 0 <= i < |listed| ==> listed[i].Good?
    ensures |r| == |listed| && forall i :: 0 <= i < |listed| ==> r[i] == Join(dir, listed[i].name)
  {
    seq(|listed|, i requires 0 <= i < |listed| => Join(dir, listed[i].name))
  }

  /** Rearranging entries rearranges their paths the same way. */
  lemma {:induction false} PathsPermutation(a: seq<DirEntry>, b: seq<DirEntry>)
    requires multiset(a) == multiset(b)
    ensures multiset(Paths(a)) == multiset(Paths(b))
    decreases |a|
  {
    if a == [] {
      assert |b| == |multiset(b)| == 0;
    } else {
      var k := PermutationSplit(a, b);
      var l, r := b[..k], b[k + 1..];
      PathsPermutation(a[1..], l + r);
      PathsMoved(a[0], l, r, a[1..]);
      assert a == [a[0]] + a[1..];
    }
  }

  /** Moving one entry from the front to between `l` and `r` moves its path
      the same way. */
  lemma PathsMoved(x: DirEntry, l: seq<DirEntry>, r: seq<DirEntry>, rest: seq<DirEntry>)
    requires multiset(Paths(rest)) == multiset(Paths(l + r))
    ensures multiset(Paths([x] + rest)) == multiset(Paths(l + [x] + r))
  {
    PathsConcat([x], rest);
    PathsConcat(l + [x], r);
    PathsConcat(l, [x]);
    PathsConcat(l, r);
    assert Paths([x]) == [x.path];
    calc {
      multiset(Paths(l + [x] + r));
      multiset(Paths(l) + [x.path] + Paths(r));
      multiset(Paths(l)) + multiset{x.path} + multiset(Paths(r));
      multiset(Paths(l + r)) + multiset{x.path};
      multiset(Paths(rest)) + multiset{x.path};
      multiset(Paths([x] + rest));
    }
  }

  lemma PathsConcat(a: seq<DirEntry>, b: seq<DirEntry>)
    ensures Paths(a + b) == Paths(a) + Paths(b)
  {
  }

  lemma MeasureAllConcat(dir: Path, a: seq<Slot>, b: seq<Slot>)
    requires forall i :: 0 <= i < |a| ==> a[i].Good?
    requires forall i :: 0 <= i < |b| ==> b[i].Good?
    ensures MeasureAll(dir, a + b) == MeasureAll(dir, a) + MeasureAll(dir, b)
  {
  }

  /** The measured children of a listing add up to the recursive size of the
      directory that holds them: bad entries add 0 either way. */
  lemma {:induction false} MeasuredTotal(dir: Path, slots: seq<Slot>)
    ensures TotalSize(MeasureAll(dir, Listed(slots))) == SlotsBytes(slots)
    decreases |slots|
  {
    if slots != [] {
      var head := if slots[0].Good? then [slots[0]] else [];
      assert Listed(slots) == head + Listed(slots[1..]);
      MeasureAllConcat(dir, head, Listed(slots[1..]));
      TotalSizeConcat(MeasureAll(dir, head), MeasureAll(dir, Listed(slots[1..])));
      MeasuredTotal(dir, slots[1..]);
    }
  }

  /** A scan lists every readable child exactly once: its paths are a
      rearrangement of the children's paths. */
  lemma ScanListsEachChildOnce(fs: FileSystem, p: Path)
    requires ReadDir(fs, p).Some?
    ensures multiset(Paths(Scan(fs, p))) == multiset(ChildPaths(p, Listed(ReadDir(fs, p).value)))
    ensures |Scan(fs, p)| == |Listed(ReadDir(fs, p).value)|
  {
    var listed := Listed(ReadDir(fs, p).value);
    var measured := MeasureAll(p, listed);
    PathsPermutation(Scan(fs, p), measured);
    assert Paths(measured) == ChildPaths(p, listed);
    SortDescSorted(measured);
  }

  /** Entries of equal size come out of a scan in listing order. */
  lemma ScanStable(fs: FileSystem, p: Path, k: nat)
    requires ReadDir(fs, p).Some?
    ensures WithSize(Scan(fs, p), k) == WithSize(MeasureAll(p, Listed(ReadDir(fs, p).value)), k)
  {
    SortDescStable(MeasureAll(p, Listed(ReadDir(fs, p).value)), k);
  }

  /** Every entry of a scan of `p` is a child of `p`, named by its last
      component and measured by the files beneath it. */
  lemma ScanEntry(fs: FileSystem, p: Path, e: DirEntry)
    requires e in Scan(fs, p)
    ensures Parent(e.path) == Some(p) && e.name == FileName(e.path)
    ensures exists c :: c in Listed(ReadDir(fs, p).value) && e == MakeEntry(p, c)
  {
    var measured := MeasureAll(p, Listed(ReadDir(fs, p).value));
    assert e in multiset(Scan(fs, p));
    var i :| 0 <= i < |measured| && measured[i] == e;
    assert Listed(ReadDir(fs, p).value)[i] in Listed(ReadDir(fs, p).value);
  }

  /** The total of a scan is the recursive size of the directory scanned:
      sorting does not change the sum, and every regular file beneath is
      counted once. An unreadable directory totals 0. */
  lemma ScanTotal(fs: FileSystem, p: Path)
    ensures ReadDir(fs, p).Some? ==> TotalSize(Scan(fs, p)) == FileBytes(Lookup(fs, p).value)
    ensures ReadDir(fs, p).None? ==> TotalSize(Scan(fs, p)) == 0
  {
    if ReadDir(fs, p).Some? {
      var slots := ReadDir(fs, p).value;
      TotalSizePermutation(Scan(fs, p), MeasureAll(p, Listed(slots)));
      MeasuredTotal(p, slots);
    }
  }

  // A worked example: `/data` holding `big.log` (5,000,000 bytes),
  // `small.txt` (120 bytes) and `sub/` with one 3,000,000-byte file.

  const ExampleDir := Path(true, [Normal("data")])
  const ExampleSub := Dir(Entries([Good("f", File(Some(3000000)))]))
  const ExampleSlots := ExampleListing(ExampleSub)

  /** The example's listing with the subdirectory left as a parameter, so
      that its size is taken from `FileBytes` rather than recomputed. */
  function ExampleListing(sub: Node): (r: seq<Slot>)
    ensures |r| == 3 && r[2] == Good("sub", sub)
  {
    [Good("big.log", File(Some(5000000))), Good("small.txt", File(Some(120))), Good("sub", sub)]
  }
  const ExampleFs := FileSystem(Dir(Entries([Good("data", Dir(Entries(ExampleSlots)))])), [])
  const BigLog := DirEntry(Join(ExampleDir, "big.log"), "big.log", 5000000, false)
  const SmallTxt := DirEntry(Join(ExampleDir, "small.txt"), "small.txt", 120, false)
  const SubDir := DirEntry(Join(ExampleDir, "sub"), "sub", 3000000, true)

  lemma ExampleRead()
    ensures ReadDir(ExampleFs, ExampleDir) == Some(ExampleSlots)
  {
    var root, data := ExampleFs.root, Dir(Entries(ExampleSlots));
    assert root.contents.slots == [Good("data", data)];
    assert ChildNamed(root.contents.slots, "data") == Some(data);
    assert [root] + [data] == [root, data];
    assert Step([root], Normal("data")) == Some([root, data]);
    assert ExampleDir.comps[1..] == [];
  }

  lemma ExampleMeasured()
    ensures MeasureAll(ExampleDir, ExampleSlots) == [BigLog, SmallTxt, SubDir]
  {
    assert FileBytes(ExampleSub) == 3000000;
    ExampleEntries(ExampleSub);
  }

  lemma ExampleEntries(sub: Node)
    requires sub.Dir? && FileBytes(sub) == 3000000
    ensures MeasureAll(ExampleDir, ExampleListing(sub)) == [BigLog, SmallTxt, SubDir]
  {
    var big, small := Good("big.log", File(Some(5000000))), Good("small.txt", File(Some(120)));
    MeasureThree(ExampleDir, big, small, Good("sub", sub));
    assert MakeEntry(ExampleDir, big) == BigLog;
    assert MakeEntry(ExampleDir, small) == SmallTxt;
    assert MakeEntry(ExampleDir, Good("sub", sub)) == SubDir;
  }

  lemma MeasureThree(dir: Path, a: Slot, b: Slot, c: Slot)
    requires a.Good? && b.Good? && c.Good?
    ensures MeasureAll(dir, [a, b, c]) == [MakeEntry(dir, a), MakeEntry(dir, b), MakeEntry(dir, c)]
  {
  }

  lemma ExampleSorted()
    ensures SortDesc([BigLog, SmallTxt, SubDir]) == [BigLog, SubDir, SmallTxt]
  {
    var measured := [BigLog, SmallTxt, SubDir];
    assert measured[..2] == [BigLog, SmallTxt] && measured[..2][..1] == [BigLog] && measured[..2][..1][..0] == [];
    assert SortDesc([BigLog]) == [BigLog];
    assert SortDesc([BigLog, SmallTxt]) == [BigLog, SmallTxt];
    assert InsertBack([BigLog], SubDir) == [BigLog, SubDir];
  }

  /** A scan of a readable directory ranks its measured children. */
  lemma ScanOfListing(fs: FileSystem, p: Path, slots: seq<Slot>)
    requires ReadDir(fs, p) == Some(slots)
    ensures Scan(fs, p) == SortDesc(MeasureAll(p, Listed(slots)))
  {
  }

  lemma ExampleTotal()
    ensures TotalSize([BigLog, SubDir, SmallTxt]) == 8000120
  {
    assert TotalSize([SmallTxt]) == 120 by { assert [SmallTxt][1..] == []; }
    assert TotalSize([SubDir, SmallTxt]) == 3000120 by { assert [SubDir, SmallTxt][1..] == [SmallTxt]; }
    assert [BigLog, SubDir, SmallTxt][1..] == [SubDir, SmallTxt];
  }

  /** The example scans as big.log, sub, small.txt, totalling 8,000,120 bytes. */
  lemma ExampleScan()
    ensures Scan(ExampleFs, ExampleDir) == [BigLog, SubDir, SmallTxt]
    ensures TotalSize(Scan(ExampleFs, ExampleDir)) == 8000120
  {
    ExampleRead();
    ListedAllGood(ExampleSlots);
    ExampleMeasured();
    ScanOfListing(ExampleFs, ExampleDir, ExampleSlots);
    ExampleSorted();
    ExampleTotal();
  }
}
