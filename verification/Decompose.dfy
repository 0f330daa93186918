/**
 Cutting a manifest down to some of its roots, as the staged push does one root
 at a time, and putting the pieces back together.
 */
module Decompose {
  import opened Base
  import opened Paths
  import opened Trees
  import opened Manifest

  // ---------------------------------------------------------------------
  // Lists whose elements carry a root index
  // ---------------------------------------------------------------------

  /** Keeps the elements whose root is remapped, with their new root. */
  function FilterRooted<T>(xs: seq<T>, rootOf: T -> nat, reroot: (T, nat) -> T, remap: map<nat, nat>): seq<T> {
    if xs == [] then []
    else
      (if rootOf(xs[0]) in remap then [reroot(xs[0], remap[rootOf(xs[0])])] else [])
      + FilterRooted(xs[1..], rootOf, reroot, remap)
  }

  function Reroots<T>(xs: seq<T>, reroot: (T, nat) -> T, root: nat): (r: seq<T>)
    ensures |r| == |xs|
    ensures forall k | 0 <= k < |xs| :: r[k] == reroot(xs[k], root)
  {
    if xs == [] then [] else [reroot(xs[0], root)] + Reroots(xs[1..], reroot, root)
  }

  /** Every root alone, moved back to its own index, one after the other from root `i` on. */
  function Rejoined<T>(xs: seq<T>, rootOf: T -> nat, reroot: (T, nat) -> T, i: nat, n: nat): seq<T>
    decreases n - i
  {
    if i >= n then []
    else Reroots(FilterRooted(xs, rootOf, reroot, map[i := 0]), reroot, i) + Rejoined(xs, rootOf, reroot, i + 1, n)
  }

  ghost predicate RootField<T(!new)>(rootOf: T -> nat, reroot: (T, nat) -> T) {
    (forall x: T, a: nat :: rootOf(reroot(x, a)) == a) &&
    (forall x: T, a: nat, b: nat :: reroot(reroot(x, a), b) == reroot(x, b)) &&
    (forall x: T :: reroot(x, rootOf(x)) == x)
  }

  ghost predicate Grouped<T>(xs: seq<T>, rootOf: T -> nat) {
    forall a, b | 0 <= a < b < |xs| :: rootOf(xs[a]) <= rootOf(xs[b])
  }

  ghost function CountBelow<T>(xs: seq<T>, rootOf: T -> nat, i: nat): (k: nat)
    ensures k <= |xs|
  {
    if xs == [] then 0 else (if rootOf(xs[0]) < i then 1 else 0) + CountBelow(xs[1..], rootOf, i)
  }

  lemma {:induction false} CountBelowSplits<T>(xs: seq<T>, rootOf: T -> nat, i: nat)
    requires Grouped(xs, rootOf)
    ensures forall k | 0 <= k < |xs| :: k < CountBelow(xs, rootOf, i) <==> rootOf(xs[k]) < i
  {
    if xs != [] {
      CountBelowSplits(xs[1..], rootOf, i);
      if rootOf(xs[0]) >= i {
        assert |xs| > 1 ==> (0 < CountBelow(xs[1..], rootOf, i) <==> rootOf(xs[1..][0]) < i);
      }
    }
  }

  lemma {:induction false} CountBelowAll<T>(xs: seq<T>, rootOf: T -> nat, n: nat)
    requires forall k | 0 <= k < |xs| :: rootOf(xs[k]) < n
    ensures CountBelow(xs, rootOf, n) == |xs|
  {
    if xs != [] {
      CountBelowAll(xs[1..], rootOf, n);
    }
  }

  lemma CountBelowUnfolds<T>(xs: seq<T>, rootOf: T -> nat, i: nat)
    requires xs != []
    ensures CountBelow(xs, rootOf, i) == (if rootOf(xs[0]) < i then 1 else 0) + CountBelow(xs[1..], rootOf, i)
  {
  }

  lemma NothingFiltered<T>(xs: seq<T>, rootOf: T -> nat, reroot: (T, nat) -> T, i: nat)
    requires xs == []
    ensures CountBelow(xs, rootOf, i) == CountBelow(xs, rootOf, i + 1) == 0
    ensures FilterRooted(xs, rootOf, reroot, map[i := 0]) == Reroots(xs[0..0], reroot, 0)
  {
  }

  lemma FilterUnfolds<T>(xs: seq<T>, rootOf: T -> nat, reroot: (T, nat) -> T, i: nat)
    requires xs != []
    ensures FilterRooted(xs, rootOf, reroot, map[i := 0]) ==
            (if rootOf(xs[0]) == i then [reroot(xs[0], 0)] else []) + FilterRooted(xs[1..], rootOf, reroot, map[i := 0])
  {
  }

  lemma RerootsCons<T>(x: T, xs: seq<T>, reroot: (T, nat) -> T, root: nat)
    ensures Reroots([x] + xs, reroot, root) == [reroot(x, root)] + Reroots(xs, reroot, root)
  {
    assert ([x] + xs)[1..] == xs;
  }

  lemma GroupedTail<T>(xs: seq<T>, rootOf: T -> nat)
    requires xs != [] && Grouped(xs, rootOf)
    ensures Grouped(xs[1..], rootOf)
  {
  }

  lemma NoneBelow<T>(xs: seq<T>, rootOf: T -> nat, i: nat)
    requires xs != [] && Grouped(xs, rootOf) && rootOf(xs[0]) >= i
    ensures CountBelow(xs, rootOf, i) == 0
  {
    CountBelowSplits(xs, rootOf, i);
    hide CountBelow, Grouped;
    assert !(0 < CountBelow(xs, rootOf, i));
  }

  /** One root's elements are a contiguous block. */
  lemma {:induction false} FilterIsBlock<T>(xs: seq<T>, rootOf: T -> nat, reroot: (T, nat) -> T, i: nat)
    requires Grouped(xs, rootOf)
    ensures CountBelow(xs, rootOf, i) <= CountBelow(xs, rootOf, i + 1)
    ensures FilterRooted(xs, rootOf, reroot, map[i := 0])
         == Reroots(xs[CountBelow(xs, rootOf, i)..CountBelow(xs, rootOf, i + 1)], reroot, 0)
  {
    hide *;
    if xs == [] {
      NothingFiltered(xs, rootOf, reroot, i);
    } else {
      var tail := xs[1..];
      GroupedTail(xs, rootOf);
      FilterIsBlock(tail, rootOf, reroot, i);
      FilterUnfolds(xs, rootOf, reroot, i);
      CountBelowUnfolds(xs, rootOf, i);
      CountBelowUnfolds(xs, rootOf, i + 1);
      var lo, hi := CountBelow(tail, rootOf, i), CountBelow(tail, rootOf, i + 1);
      if rootOf(xs[0]) < i {
        SliceOfCons(xs, lo, hi);
      } else if rootOf(xs[0]) == i {
        NoneBelow(xs, rootOf, i);
        assert xs[0..1 + hi] == [xs[0]] + tail[0..hi];
        RerootsCons(xs[0], tail[0..hi], reroot, 0);
      } else {
        NoneBelow(xs, rootOf, i + 1);
        assert xs[0..0] == tail[0..0];
      }
    }
  }

  lemma SliceOfCons<T>(xs: seq<T>, lo: nat, hi: nat)
    requires xs != [] && lo <= hi <= |xs| - 1
    ensures xs[lo + 1..hi + 1] == xs[1..][lo..hi]
  {
    var tail := xs[1..];
    forall k | 0 <= k < hi - lo
      ensures xs[lo + 1..hi + 1][k] == tail[lo..hi][k]
    {
      assert tail[lo..hi][k] == tail[lo + k] == xs[lo + 1 + k];
    }
  }

  lemma {:induction false} RejoinedIsSuffix<T(!new)>(xs: seq<T>, rootOf: T -> nat, reroot: (T, nat) -> T, i: nat, n: nat)
    requires RootField(rootOf, reroot) && Grouped(xs, rootOf) && i <= n
    requires forall k | 0 <= k < |xs| :: rootOf(xs[k]) < n
    ensures Rejoined(xs, rootOf, reroot, i, n) == xs[CountBelow(xs, rootOf, i)..]
    decreases n - i
  {
    if i == n {
      CountBelowAll(xs, rootOf, n);
    } else {
      var lo, hi := CountBelow(xs, rootOf, i), CountBelow(xs, rootOf, i + 1);
      FilterIsBlock(xs, rootOf, reroot, i);
      RejoinedIsSuffix(xs, rootOf, reroot, i + 1, n);
      BlockRoots(xs, rootOf, i);
      hide CountBelow, RootField, Grouped, FilterRooted, Reroots;
      RerootBack(xs[lo..hi], rootOf, reroot, i);
      SliceJoins(xs, lo, hi);
    }
  }

  lemma SliceJoins<T>(xs: seq<T>, lo: nat, hi: nat)
    requires lo <= hi <= |xs|
    ensures xs[lo..hi] + xs[hi..] == xs[lo..]
  {
  }

  lemma BlockRoots<T>(xs: seq<T>, rootOf: T -> nat, i: nat)
    requires Grouped(xs, rootOf) && CountBelow(xs, rootOf, i) <= CountBelow(xs, rootOf, i + 1)
    ensures var lo, hi := CountBelow(xs, rootOf, i), CountBelow(xs, rootOf, i + 1);
            forall k | 0 <= k < |xs| :: lo <= k < hi <==> rootOf(xs[k]) == i
  {
    CountBelowSplits(xs, rootOf, i);
    CountBelowSplits(xs, rootOf, i + 1);
  }

  lemma {:induction false} RerootBack<T(!new)>(xs: seq<T>, rootOf: T -> nat, reroot: (T, nat) -> T, i: nat)
    requires RootField(rootOf, reroot)
    requires forall k | 0 <= k < |xs| :: rootOf(xs[k]) == i
    ensures Reroots(Reroots(xs, reroot, 0), reroot, i) == xs
  {
    if xs != [] {
      RerootBack(xs[1..], rootOf, reroot, i);
      assert rootOf(xs[0]) == i;
      assert Reroots(xs, reroot, 0)[1..] == Reroots(xs[1..], reroot, 0);
    }
  }

  lemma RejoinedIsWhole<T(!new)>(xs: seq<T>, rootOf: T -> nat, reroot: (T, nat) -> T, n: nat)
    requires RootField(rootOf, reroot) && Grouped(xs, rootOf)
    requires forall k | 0 <= k < |xs| :: rootOf(xs[k]) < n
    ensures Rejoined(xs, rootOf, reroot, 0, n) == xs
  {
    RejoinedIsSuffix(xs, rootOf, reroot, 0, n);
    CountBelowSplits(xs, rootOf, 0);
    assert CountBelow(xs, rootOf, 0) == 0;
  }

  // ---------------------------------------------------------------------
  // Manifests
  // ---------------------------------------------------------------------

  function EntryRoot(e: TransferEntry): nat {
    e.rootIndex
  }

  function RerootEntry(e: TransferEntry, root: nat): TransferEntry {
    e.(rootIndex := root)
  }

  function FileRoot(f: BatchFile): nat {
    f.rootIndex
  }

  function RerootFile(f: BatchFile, root: nat): BatchFile {
    f.(rootIndex := root)
  }

  /** Where each kept root index goes; of a repeated index the last position counts. */
  function Remap(rootIndexes: seq<nat>): map<nat, nat> {
    if rootIndexes == [] then map[]
    else
      var last := |rootIndexes| - 1;
      Remap(rootIndexes[..last])[rootIndexes[last] := last]
  }

  method FilterBatchManifest(m: BatchManifest, rootIndexes: seq<nat>) returns (r: Result<BatchManifest, ManifestError>)
    ensures r.Ok? <==> forall i | 0 <= i < |rootIndexes| :: rootIndexes[i] < |m.sources| && rootIndexes[i] < |m.roots|
    ensures r.Ok? ==>
              |r.value.sources| == |r.value.roots| == |rootIndexes| &&
              forall i | 0 <= i < |rootIndexes| ::
                r.value.sources[i] == m.sources[rootIndexes[i]] && r.value.roots[i] == m.roots[rootIndexes[i]]
    ensures r.Ok? ==>
              r.value.entries == FilterRooted(m.entries, EntryRoot, RerootEntry, Remap(rootIndexes)) &&
              r.value.files == FilterRooted(m.files, FileRoot, RerootFile, Remap(rootIndexes)) &&
              r.value.totalBytes == Sum(FileSizes(r.value.files))
  {
    var remap: map<nat, nat> := map[];
    var sources: seq<Path> := [];
    var roots: seq<TransferRoot> := [];
    for i := 0 to |rootIndexes|
      invariant forall k | 0 <= k < i :: rootIndexes[k] < |m.sources| && rootIndexes[k] < |m.roots|
      invariant |sources| == |roots| == i
      invariant forall k | 0 <= k < i :: sources[k] == m.sources[rootIndexes[k]] && roots[k] == m.roots[rootIndexes[k]]
      invariant remap == Remap(rootIndexes[..i])
    {
      var root := rootIndexes[i];
      if root >= |m.sources| || root >= |m.roots| {
        return Err(InvalidRootIndex(root));
      }
      assert rootIndexes[..i + 1][..i] == rootIndexes[..i];
      remap := remap[root := i];
      sources := sources + [m.sources[root]];
      roots := roots + [m.roots[root]];
    }
    assert rootIndexes[..|rootIndexes|] == rootIndexes;
    var files := FilterRooted(m.files, FileRoot, RerootFile, remap);
    r := Ok(BatchManifest(sources, roots, FilterRooted(m.entries, EntryRoot, RerootEntry, remap), files,
                          Sum(FileSizes(files))));
  }

  /** The remapping knows exactly the chosen roots, each under the last position it was chosen at. */
  lemma {:induction false} RemapExact(rootIndexes: seq<nat>)
    ensures forall root: nat :: root in Remap(rootIndexes) <==> root in rootIndexes
    ensures forall root | root in Remap(rootIndexes) ::
              var p := Remap(rootIndexes)[root];
              p < |rootIndexes| && rootIndexes[p] == root && forall q | p < q < |rootIndexes| :: rootIndexes[q] != root
  {
    if rootIndexes != [] {
      var last := |rootIndexes| - 1;
      RemapExact(rootIndexes[..last]);
      assert rootIndexes == rootIndexes[..last] + [rootIndexes[last]];
    }
  }

  /** Filtering keeps exactly the elements of remapped roots, in order; `kept` says where each comes from. */
  lemma {:induction false} FilterExact<T>(xs: seq<T>, rootOf: T -> nat, reroot: (T, nat) -> T, remap: map<nat, nat>) returns (kept: seq<nat>)
    ensures |kept| == |FilterRooted(xs, rootOf, reroot, remap)|
    ensures forall i, j | 0 <= i < j < |kept| :: kept[i] < kept[j]
    ensures forall k | 0 <= k < |xs| :: k in kept <==> rootOf(xs[k]) in remap
    ensures forall i | 0 <= i < |kept| ::
              kept[i] < |xs| && rootOf(xs[kept[i]]) in remap &&
              FilterRooted(xs, rootOf, reroot, remap)[i] == reroot(xs[kept[i]], remap[rootOf(xs[kept[i]])])
  {
    kept := [];
    if xs != [] {
      hide FilterRooted;
      var n := |xs| - 1;
      var before, x := xs[..n], xs[n];
      kept := FilterExact(before, rootOf, reroot, remap);
      FilterAppend(before, [x], rootOf, reroot, remap);
      FilterOne(x, rootOf, reroot, remap);
      assert xs == before + [x];
      if rootOf(x) in remap {
        kept := kept + [n];
      }
    }
  }

  /** The manifest of root `i` alone, as the staged push uploads it. */
  function SingleRoot(m: BatchManifest, i: nat): BatchManifest
    requires i < |m.sources| && i < |m.roots|
  {
    var files := FilterRooted(m.files, FileRoot, RerootFile, map[i := 0]);
    BatchManifest([m.sources[i]], [m.roots[i]], FilterRooted(m.entries, EntryRoot, RerootEntry, map[i := 0]), files,
                  Sum(FileSizes(files)))
  }

  lemma FilterOfOne(i: nat)
    ensures Remap([i]) == map[i := 0]
  {
    assert [i][..0] == [];
  }

  lemma {:induction false} FileEntriesOfFilter(entries: seq<TransferEntry>, remap: map<nat, nat>)
    ensures FileEntries(FilterRooted(entries, EntryRoot, RerootEntry, remap))
         == FilterRooted(FileEntries(entries), EntryRoot, RerootEntry, remap)
  {
    if entries != [] {
      var later := FilterRooted(entries[1..], EntryRoot, RerootEntry, remap);
      FileEntriesOfFilter(entries[1..], remap);
      var all := FilterRooted(entries, EntryRoot, RerootEntry, remap);
      if EntryRoot(entries[0]) in remap {
        assert all[0].kind == entries[0].kind && all[1..] == later;
      } else {
        assert all == later;
      }
      if entries[0].kind.FileEntry? {
        assert FileEntries(entries)[1..] == FileEntries(entries[1..]);
      } else {
        assert FileEntries(entries) == FileEntries(entries[1..]);
      }
    }
  }

  ghost predicate Agree(wanted: seq<TransferEntry>, files: seq<BatchFile>) {
    |files| == |wanted| &&
    forall i | 0 <= i < |files| :: files[i].rootIndex == wanted[i].rootIndex && files[i].size == wanted[i].size
  }

  lemma {:induction false} FilterAgrees(wanted: seq<TransferEntry>, files: seq<BatchFile>, remap: map<nat, nat>)
    requires Agree(wanted, files)
    ensures Agree(FilterRooted(wanted, EntryRoot, RerootEntry, remap), FilterRooted(files, FileRoot, RerootFile, remap))
  {
    if files != [] {
      var e, f := wanted[0], files[0];
      assert e.rootIndex == f.rootIndex && e.size == f.size;
      FilterAgrees(wanted[1..], files[1..], remap);
      if f.rootIndex in remap {
        var root := remap[f.rootIndex];
        assert Agree([RerootEntry(e, root)], [RerootFile(f, root)]);
      }
    }
  }

  ghost predicate AllNamed(paths: seq<Path>, wanted: seq<TransferEntry>, files: seq<BatchFile>) {
    |files| == |wanted| && forall k | 0 <= k < |files| :: FileNamed(paths, 0, wanted[k], files[k])
  }

  /** The files of one root keep their names when that root is all there is. */
  lemma {:induction false} FilterNamed(paths: seq<Path>, wanted: seq<TransferEntry>, files: seq<BatchFile>, i: nat)
    requires i < |paths| && AllNamed(paths, wanted, files) && Agree(wanted, files)
    ensures AllNamed([paths[i]], FilterRooted(wanted, EntryRoot, RerootEntry, map[i := 0]),
                     FilterRooted(files, FileRoot, RerootFile, map[i := 0]))
  {
    hide TextPath;
    if files != [] {
      var e, f := wanted[0], files[0];
      assert FileNamed(paths, 0, e, f) && e.rootIndex == f.rootIndex;
      forall k | 0 <= k < |files[1..]|
        ensures FileNamed(paths, 0, wanted[1..][k], files[1..][k])
      {
        assert FileNamed(paths, 0, wanted[k + 1], files[k + 1]);
      }
      FilterNamed(paths, wanted[1..], files[1..], i);
      if f.rootIndex == i {
        assert FileNamed([paths[i]], 0, RerootEntry(e, 0), RerootFile(f, 0));
      }
    }
  }

  lemma EntriesGrouped(m: BatchManifest)
    requires WellFormedManifest(m)
    ensures Grouped(m.entries, EntryRoot)
    ensures forall k | 0 <= k < |m.entries| :: EntryRoot(m.entries[k]) < |m.roots|
  {
    forall a, b | 0 <= a < b < |m.entries|
      ensures EntryRoot(m.entries[a]) <= EntryRoot(m.entries[b])
    {
      assert EntryBefore(m.entries[a], m.entries[b]);
    }
  }

  /** Root `i`'s entries are the entries lo..hi of the whole manifest, and no others belong to it. */
  lemma SingleRootBlock(m: BatchManifest, i: nat) returns (lo: nat, hi: nat)
    requires WellFormedManifest(m) && i < |m.roots|
    ensures lo <= hi <= |m.entries| && |SingleRoot(m, i).entries| == hi - lo
    ensures forall k | 0 <= k < hi - lo :: SingleRoot(m, i).entries[k] == RerootEntry(m.entries[lo + k], 0)
    ensures forall k | 0 <= k < |m.entries| :: lo <= k < hi <==> m.entries[k].rootIndex == i
  {
    EntriesGrouped(m);
    hide WellFormedManifest;
    lo, hi := EntryBlock(m.entries, i);
  }

  lemma EntryBlock(entries: seq<TransferEntry>, i: nat) returns (lo: nat, hi: nat)
    requires Grouped(entries, EntryRoot)
    ensures var one := FilterRooted(entries, EntryRoot, RerootEntry, map[i := 0]);
            lo <= hi <= |entries| && |one| == hi - lo &&
            forall k | 0 <= k < hi - lo :: one[k] == RerootEntry(entries[lo + k], 0)
    ensures forall k | 0 <= k < |entries| :: lo <= k < hi <==> entries[k].rootIndex == i
  {
    hide FilterRooted, CountBelow, Grouped;
    lo, hi := CountBelow(entries, EntryRoot, i), CountBelow(entries, EntryRoot, i + 1);
    FilterIsBlock(entries, EntryRoot, RerootEntry, i);
    BlockRoots(entries, EntryRoot, i);
    forall k | 0 <= k < |entries|
      ensures lo <= k < hi <==> entries[k].rootIndex == i
    {
      assert lo <= k < hi <==> EntryRoot(entries[k]) == i;
    }
  }

  /** Each root alone is a well-formed manifest. */
  lemma SingleRootWellFormed(m: BatchManifest, i: nat)
    requires WellFormedManifest(m) && i < |m.roots|
    ensures WellFormedManifest(SingleRoot(m, i))
  {
    hide CanonicalTexts, Increasing, ParentsFirst, FileNamed, FilterRooted, FileSizes, Sum, FileEntries, Remap;
    var lo, hi := SingleRootBlock(m, i);
    BlockShape(m.entries, SingleRoot(m, i).entries, lo, hi, i);
    FileEntriesOfFilter(m.entries, map[i := 0]);
    assert Agree(FileEntries(m.entries), m.files) && AllNamed(m.sources, FileEntries(m.entries), m.files);
    FilterAgrees(FileEntries(m.entries), m.files, map[i := 0]);
    FilterNamed(m.sources, FileEntries(m.entries), m.files, i);
  }

  lemma BlockShape(all: seq<TransferEntry>, one: seq<TransferEntry>, lo: nat, hi: nat, i: nat)
    requires CanonicalTexts(all) && Increasing(all) && ParentsFirst(all)
    requires lo <= hi <= |all| && |one| == hi - lo
    requires forall k | 0 <= k < hi - lo :: one[k] == RerootEntry(all[lo + k], 0)
    requires forall k | 0 <= k < |all| :: lo <= k < hi <==> all[k].rootIndex == i
    ensures CanonicalTexts(one) && Increasing(one) && ParentsFirst(one)
    ensures forall e | e in one :: e.rootIndex == 0
  {
    hide TextPath, PathText, PathLess;
    forall e | e in one
      ensures e.relativePath == PathText(EntryPath(e))
    {
      var k :| 0 <= k < |one| && one[k] == e;
      assert all[lo + k] in all;
    }
    forall a, b | 0 <= a < b < |one|
      ensures EntryBefore(one[a], one[b])
    {
      assert EntryBefore(all[lo + a], all[lo + b]);
    }
    forall j | 0 <= j < |one| && EntryPath(one[j]) != []
      ensures exists d | 0 <= d < j :: IsParentOf(one[d], one[j])
    {
      var d :| 0 <= d < lo + j && IsParentOf(all[d], all[lo + j]);
      assert IsParentOf(one[d - lo], one[j]);
    }
  }

  /** The bytes and entry counts of the single-root manifests from root `i` on, added up. */
  function SingleTotals(m: BatchManifest, i: nat): (nat, nat)
    requires |m.sources| == |m.roots|
    decreases |m.roots| - i
  {
    if i >= |m.roots| then (0, 0)
    else
      var one, later := SingleRoot(m, i), SingleTotals(m, i + 1);
      (|one.entries| + later.0, one.totalBytes + later.1)
  }

  lemma {:induction false} RerootedSizes(files: seq<BatchFile>, root: nat)
    ensures FileSizes(Reroots(files, RerootFile, root)) == FileSizes(files)
  {
    if files != [] {
      RerootedSizes(files[1..], root);
      assert Reroots(files, RerootFile, root)[1..] == Reroots(files[1..], RerootFile, root);
    }
  }

  lemma {:induction false} SingleTotalsAreRejoined(m: BatchManifest, i: nat)
    requires |m.sources| == |m.roots|
    ensures SingleTotals(m, i).0 == |Rejoined(m.entries, EntryRoot, RerootEntry, i, |m.roots|)|
    ensures SingleTotals(m, i).1 == Sum(FileSizes(Rejoined(m.files, FileRoot, RerootFile, i, |m.roots|)))
    decreases |m.roots| - i
  {
    hide FilterRooted, Reroots, FileSizes, Sum;
    if i < |m.roots| {
      SingleTotalsAreRejoined(m, i + 1);
      var one := SingleRoot(m, i);
      var here, later := Reroots(one.files, RerootFile, i), Rejoined(m.files, FileRoot, RerootFile, i + 1, |m.roots|);
      RerootedSizes(one.files, i);
      FileSizesAppend(here, later);
      SumAppend(FileSizes(here), FileSizes(later));
    } else {
      NoSizes();
    }
  }

  lemma NoSizes()
    ensures Sum(FileSizes([])) == 0
  {
  }

  /**
   Filtering a well-formed manifest by each root alone loses nothing: the pieces are well formed, put
   back together they are the original, and their counts and bytes add up to it.
   */
  lemma ManifestDecomposition(m: BatchManifest)
    requires WellFormedManifest(m)
    ensures forall i | 0 <= i < |m.roots| :: WellFormedManifest(SingleRoot(m, i))
    ensures Rejoined(m.entries, EntryRoot, RerootEntry, 0, |m.roots|) == m.entries
    ensures Rejoined(m.files, FileRoot, RerootFile, 0, |m.roots|) == m.files
    ensures SingleTotals(m, 0) == (|m.entries|, m.totalBytes)
  {
    forall i | 0 <= i < |m.roots|
      ensures WellFormedManifest(SingleRoot(m, i))
    {
      SingleRootWellFormed(m, i);
    }
    EntriesGrouped(m);
    RejoinedIsWhole(m.entries, EntryRoot, RerootEntry, |m.roots|);
    FilesGrouped(m);
    RejoinedIsWhole(m.files, FileRoot, RerootFile, |m.roots|);
    SingleTotalsAreRejoined(m, 0);
  }

  lemma FilesGrouped(m: BatchManifest)
    requires WellFormedManifest(m)
    ensures Grouped(m.files, FileRoot)
    ensures forall k | 0 <= k < |m.files| :: FileRoot(m.files[k]) < |m.roots|
  {
    EntriesGrouped(m);
    FileEntriesGrouped(m.entries);
    var wanted := FileEntries(m.entries);
    forall k | 0 <= k < |m.files|
      ensures FileRoot(m.files[k]) < |m.roots|
    {
      assert m.files[k].rootIndex == wanted[k].rootIndex;
      assert wanted[k] in m.entries;
    }
    forall a, b | 0 <= a < b < |m.files|
      ensures FileRoot(m.files[a]) <= FileRoot(m.files[b])
    {
      assert EntryRoot(wanted[a]) <= EntryRoot(wanted[b]);
    }
  }

  lemma {:induction false} FileEntriesGrouped(entries: seq<TransferEntry>)
    requires Grouped(entries, EntryRoot)
    ensures Grouped(FileEntries(entries), EntryRoot)
    ensures forall e | e in FileEntries(entries) :: e in entries
  {
    if entries != [] {
      FileEntriesGrouped(entries[1..]);
      FirstRootLeast(entries, FileEntries(entries[1..]));
    }
  }

  lemma FirstRootLeast(entries: seq<TransferEntry>, later: seq<TransferEntry>)
    requires entries != [] && Grouped(entries, EntryRoot)
    requires forall e | e in later :: e in entries[1..]
    ensures forall k | 0 <= k < |later| :: EntryRoot(entries[0]) <= EntryRoot(later[k])
  {
    forall k | 0 <= k < |later|
      ensures EntryRoot(entries[0]) <= EntryRoot(later[k])
    {
      assert later[k] in entries[1..];
      var j :| 0 <= j < |entries[1..]| && entries[1..][j] == later[k];
      assert EntryRoot(entries[0]) <= EntryRoot(entries[j + 1]);
    }
  }

  // ---------------------------------------------------------------------
  // One root of a forest
  // ---------------------------------------------------------------------

  lemma {:induction false} FilterAppend<T>(a: seq<T>, b: seq<T>, rootOf: T -> nat, reroot: (T, nat) -> T, remap: map<nat, nat>)
    ensures FilterRooted(a + b, rootOf, reroot, remap)
         == FilterRooted(a, rootOf, reroot, remap) + FilterRooted(b, rootOf, reroot, remap)
  {
    if a == [] {
      assert a + b == b;
    } else {
      assert (a + b)[1..] == a[1..] + b;
      FilterAppend(a[1..], b, rootOf, reroot, remap);
      var head := if rootOf(a[0]) in remap then [reroot(a[0], remap[rootOf(a[0])])] else [];
      Associate(head, FilterRooted(a[1..], rootOf, reroot, remap), FilterRooted(b, rootOf, reroot, remap));
    }
  }

  /** The elements of root `i` alone, as root 0, without the byte count. */
  function OnlyRoot(t: Tally, i: nat): Tally {
    Tally(FilterRooted(t.entries, EntryRoot, RerootEntry, map[i := 0]),
          FilterRooted(t.files, FileRoot, RerootFile, map[i := 0]), 0)
  }

  function Uncounted(t: Tally): Tally {
    t.(bytes := 0)
  }

  lemma OnlyRootPlus(a: Tally, b: Tally, i: nat)
    ensures OnlyRoot(Plus(a, b), i) == Plus(OnlyRoot(a, i), OnlyRoot(b, i))
  {
    FilterAppend(a.entries, b.entries, EntryRoot, RerootEntry, map[i := 0]);
    FilterAppend(a.files, b.files, FileRoot, RerootFile, map[i := 0]);
  }

  lemma FilterOne<T>(x: T, rootOf: T -> nat, reroot: (T, nat) -> T, remap: map<nat, nat>)
    ensures FilterRooted([x], rootOf, reroot, remap)
         == if rootOf(x) in remap then [reroot(x, remap[rootOf(x)])] else []
  {
    assert [x][1..] == [];
  }

  lemma OnlyRootOfVisit(k: nat, base: Path, v: Visit, i: nat)
    ensures OnlyRoot(TallyVisit(k, base, v), i) ==
            if k == i then Uncounted(TallyVisit(0, base, v)) else NOTHING
  {
    FilterOne(EntryOf(k, v), EntryRoot, RerootEntry, map[i := 0]);
    hide PathText;
    match v.node
    case FileNode(_, data) => FilterOne(BatchFile(k, base + v.path, |data|), FileRoot, RerootFile, map[i := 0]);
    case DirNode(_) =>
  }

  const NOTHING := Tally([], [], 0)

  lemma PlusOneSided(a: Tally, b: Tally)
    ensures a == NOTHING ==> Plus(a, b) == b
    ensures b == NOTHING ==> Plus(a, b) == a
  {
    PlusNothing(a);
    PlusNothing(b);
  }

  lemma UncountedPlus(a: Tally, b: Tally)
    ensures Uncounted(Plus(a, b)) == Plus(Uncounted(a), Uncounted(b))
  {
  }

  lemma WalkTallyUnfolds(k: nat, base: Path, vs: seq<Visit>)
    ensures vs == [] ==> TallyWalk(k, base, vs) == NOTHING
    ensures vs != [] ==> TallyWalk(k, base, vs) == Plus(TallyVisit(k, base, vs[0]), TallyWalk(k, base, vs[1..]))
  {
  }

  lemma OnlyRootOfNothing(i: nat)
    ensures OnlyRoot(NOTHING, i) == Uncounted(NOTHING) == NOTHING
  {
  }

  lemma {:induction false} OnlyRootOfWalk(k: nat, base: Path, vs: seq<Visit>, i: nat)
    ensures OnlyRoot(TallyWalk(k, base, vs), i) == if k == i then Uncounted(TallyWalk(0, base, vs)) else NOTHING
  {
    hide *;
    WalkTallyUnfolds(k, base, vs);
    WalkTallyUnfolds(0, base, vs);
    OnlyRootOfNothing(i);
    if vs != [] {
      OnlyRootOfWalk(k, base, vs[1..], i);
      OnlyRootOfVisit(k, base, vs[0], i);
      OnlyRootPlus(TallyVisit(k, base, vs[0]), TallyWalk(k, base, vs[1..]), i);
      UncountedPlus(TallyVisit(0, base, vs[0]), TallyWalk(0, base, vs[1..]));
      PlusOneSided(NOTHING, NOTHING);
    }
  }

  /** What one source contributes as root `root`. */
  function SourceTally(root: nat, s: Source): Tally {
    TallyWalk(root, s.Path(), SourceVisits(s.tree))
  }

  lemma OnlyRootOfSource(root: nat, s: Source, i: nat)
    ensures OnlyRoot(SourceTally(root, s), i) ==
            if root == i then Uncounted(SourceTally(0, s)) else NOTHING
  {
    OnlyRootOfWalk(root, s.Path(), SourceVisits(s.tree), i);
  }

  lemma ForestUnfolds(sources: seq<Source>, from: nat)
    ensures sources == [] ==> ForestTally(sources, from) == NOTHING
    ensures sources != [] ==>
              ForestTally(sources, from) == Plus(SourceTally(from, sources[0]), ForestTally(sources[1..], from + 1))
  {
  }

  lemma {:induction false} OnlyRootOfLaterForest(sources: seq<Source>, from: nat, i: nat)
    requires i < from
    ensures OnlyRoot(ForestTally(sources, from), i) == NOTHING
    decreases |sources|
  {
    hide *;
    ForestUnfolds(sources, from);
    OnlyRootOfNothing(i);
    if sources != [] {
      OnlyRootOfLaterForest(sources[1..], from + 1, i);
      OnlyRootOfSource(from, sources[0], i);
      OnlyRootPlus(SourceTally(from, sources[0]), ForestTally(sources[1..], from + 1), i);
      PlusOneSided(NOTHING, NOTHING);
    }
  }

  lemma {:induction false} OnlyRootOfForest(sources: seq<Source>, from: nat, k: nat)
    requires k < |sources|
    ensures OnlyRoot(ForestTally(sources, from), from + k) == Uncounted(SourceTally(0, sources[k]))
    decreases |sources|
  {
    hide *;
    ForestUnfolds(sources, from);
    var a, b := SourceTally(from, sources[0]), ForestTally(sources[1..], from + 1);
    OnlyRootPlus(a, b, from + k);
    OnlyRootOfSource(from, sources[0], from + k);
    if k == 0 {
      OnlyRootOfLaterForest(sources[1..], from + 1, from);
    } else {
      OnlyRootOfForest(sources[1..], from + 1, k - 1);
      assert from + 1 + (k - 1) == from + k;
    }
    PlusOneSided(OnlyRoot(a, from + k), OnlyRoot(b, from + k));
  }

  lemma OneSourceManifest(s: Source)
    ensures ForestManifest([s]) ==
            BatchManifest([s.Path()], [RootOf(s)], SourceTally(0, s).entries, SourceTally(0, s).files,
                          Sum(FileSizes(SourceTally(0, s).files)))
  {
    ForestUnfolds([s], 0);
    PlusNothing(SourceTally(0, s));
    TallyWalkShape(0, s.Path(), SourceVisits(s.tree));
    hide TallyWalk, SourceVisits;
    assert [s][1..] == [];
    assert ForestTally([s], 0) == SourceTally(0, s);
    assert RootsOf([s]) == [RootOf(s)] && PathsOf([s]) == [s.Path()];
  }

  /** Filtering a forest's manifest by one root gives the manifest of that source alone. */
  lemma SingleRootIsForest(sources: seq<Source>, i: nat)
    requires i < |sources|
    ensures SingleRoot(ForestManifest(sources), i) == ForestManifest([sources[i]])
  {
    hide ForestTally, FilterRooted, SourceTally;
    OnlyRootOfForest(sources, 0, i);
    OneSourceManifest(sources[i]);
  }
}
