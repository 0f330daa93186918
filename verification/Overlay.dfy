/**
 What unpacking a list of manifest entries does to a file system: when it
 succeeds, and the exact content it leaves at every path.
 */
module Overlay {
  import opened Base
  import opened Frames
  import opened Paths
  import opened Trees
  import opened FileSystem
  import opened Manifest

  /** The two programs that unpack; they treat an out-of-range file mode differently. */
  datatype Side = Daemon | Client

  /** One entry with its output path resolved and its content known. */
  datatype Item = Item(path: Path, kind: EntryKind, mode: nat, data: seq<Byte>)

  function NormalizeMode(mode: nat): Mode {
    var masked := mode % 4096;
    if masked == 0 then 420 else masked  // 0o644
  }

  function FinalFileMode(side: Side, mode: nat): Mode {
    if side.Daemon? then NormalizeMode(mode) else mode % 4096
  }

  /** Makes the parent directories of a file and opens it for writing; the directories stay if opening fails. */
  function OpenOutput(fs: FS, umask: Mode, p: Path, mode: nat): (FS, Result<(), FsError>) {
    match if p == [] then Ok(fs) else MkdirAll(fs, Parent(p), umask)
    case Err(e) => (fs, Err(e))
    case Ok(made) =>
      match OpenTruncate(made, p, NormalizeMode(mode), umask)
      case Err(e) => (made, Err(e))
      case Ok(ready) => (ready, Ok(()))
  }

  /** Sets the mode an entry carries, if it carries one. */
  function FinishMode(fs: FS, p: Path, entryMode: nat, mode: Mode): FS
    requires p in fs
  {
    if entryMode != 0 then fs[p := WithMode(fs[p], mode)] else fs
  }

  function ApplyItem(fs: FS, side: Side, umask: Mode, it: Item): Result<FS, FsError> {
    match it.kind
    case DirectoryEntry =>
      var made :- MkdirAll(fs, it.path, umask);
      MkdirAllPresent(fs, it.path, umask);
      Ok(FinishMode(made, it.path, it.mode, it.mode % 4096))
    case FileEntry =>
      var (ready, r) := OpenOutput(fs, umask, it.path, it.mode);
      if r.Err? then Err(r.error)
      else Ok(FinishMode(Append(ready, it.path, it.data), it.path, it.mode, FinalFileMode(side, it.mode)))
  }

  lemma MkdirAllPresent(fs: FS, p: Path, umask: Mode)
    ensures MkdirAll(fs, p, umask).Ok? ==> p in MkdirAll(fs, p, umask).value
  {
  }

  function ApplyItems(fs: FS, side: Side, umask: Mode, items: seq<Item>): Result<FS, FsError>
    decreases |items|
  {
    if items == [] then Ok(fs)
    else
      var next :- ApplyItem(fs, side, umask, items[0]);
      ApplyItems(next, side, umask, items[1..])
  }

  // ---------------------------------------------------------------------
  // The reference: what each path holds afterwards
  // ---------------------------------------------------------------------

  /** A file where a directory is wanted, or the other way round. */
  predicate Clashes(before: Option<Node>, kind: EntryKind) {
    before.Some? && KindOf(before.value) != kind
  }

  /** The node an entry leaves: its content, and its mode or else the mode already there or the default. */
  function NodeAfter(side: Side, umask: Mode, before: Option<Node>, it: Item): Node {
    match it.kind
    case DirectoryEntry =>
      DirNode(if it.mode != 0 then it.mode % 4096 else if before.Some? then before.value.mode else DirDefault(umask))
    case FileEntry =>
      FileNode(if it.mode != 0 then FinalFileMode(side, it.mode)
               else if before.Some? then before.value.mode
               else Unmask(NormalizeMode(it.mode), umask),
               it.data)
  }

  /** The bits of 0o644 that are not in the umask. */
  ghost predicate IsUnpackedFileMode(mode: Mode, umask: Mode) {
    forall k: nat | k < 12 :: BitSet(mode, k) <==> k in {2, 5, 7, 8} && !BitSet(umask, k)
  }

  /** The bits of 0o777 that are not in the umask. */
  ghost predicate IsNewDirMode(mode: Mode, umask: Mode) {
    forall k: nat | k < 12 :: BitSet(mode, k) <==> k < 9 && !BitSet(umask, k)
  }

  /**
   Which mode an entry leaves: the permission bits it carries, for a file on the daemon 0o644 if they are none; an entry
   that carries no mode keeps that of the node already there, and a new node gets its default without the umask's bits.
   */
  lemma ModeAfterExact(side: Side, umask: Mode, before: Option<Node>, it: Item)
    ensures var mode := NodeAfter(side, umask, before, it).mode;
            if it.mode != 0 then
              mode == if side == Daemon && it.kind == FileEntry && it.mode % 4096 == 0 then 420 else it.mode % 4096
            else if before.Some? then mode == before.value.mode
            else if it.kind == FileEntry then IsUnpackedFileMode(mode, umask)
            else IsNewDirMode(mode, umask)
  {
    forall k: nat | k < 12
      ensures BitSet(Unmask(420, umask), k) <==> k in {2, 5, 7, 8} && !BitSet(umask, k)
    {
      FileBits(umask, k);
    }
    forall k: nat | k < 12
      ensures BitSet(DirDefault(umask), k) <==> k < 9 && !BitSet(umask, k)
    {
      DirDefaultExact(umask, k);
    }
    hide BitSet, Unmask;
  }

  lemma FileBits(umask: Mode, k: nat)
    requires k < 12
    ensures BitSet(Unmask(420, umask), k) <==> k in {2, 5, 7, 8} && !BitSet(umask, k)
  {
    hide Unmask;
    UnmaskExact(420, umask, k);
    Powers();
  }

  ghost predicate Visits(items: seq<Item>, p: Path) {
    exists i | 0 <= i < |items| :: items[i].path == p
  }

  ghost predicate VisitsBelow(items: seq<Item>, p: Path) {
    exists i | 0 <= i < |items| :: p < items[i].path
  }

  ghost function OverlayAt(fs: FS, side: Side, umask: Mode, items: seq<Item>, p: Path): Option<Node> {
    if Visits(items, p) then
      var i :| 0 <= i < |items| && items[i].path == p;
      Some(NodeAfter(side, umask, Get(fs, p), items[i]))
    else if p !in fs && VisitsBelow(items, p) then Some(DirNode(DirDefault(umask)))
    else Get(fs, p)
  }

  /** No path twice, and what lies above another path is an earlier directory. */
  ghost predicate WellOrdered(items: seq<Item>) {
    (forall i, j | 0 <= i < j < |items| :: items[i].path != items[j].path) &&
    (forall i, j | 0 <= i < |items| && 0 <= j < |items| && items[i].path < items[j].path ::
       i < j && items[i].kind.DirectoryEntry?)
  }

  /** Nothing in the file system stands in the way of any entry. */
  ghost predicate Compatible(fs: FS, items: seq<Item>) {
    forall i | 0 <= i < |items| ::
      !FileAbove(fs, items[i].path) && !Clashes(Get(fs, items[i].path), items[i].kind)
  }

  lemma OpenOutputExact(fs: FS, umask: Mode, p: Path, mode: nat)
    requires WellFormed(fs)
    ensures var (ready, r) := OpenOutput(fs, umask, p, mode);
            (r.Ok? <==> !FileAbove(fs, p) && !IsDir(fs, p)) &&
            (r.Err? ==> ready == fs) &&
            (r.Ok? ==>
               WellFormed(ready) &&
               forall q :: Get(ready, q) ==
                           if q == p then
                             Some(FileNode(if p in fs then fs[p].mode else Unmask(NormalizeMode(mode), umask), []))
                           else if q < p && q !in fs then Some(DirNode(DirDefault(umask)))
                           else Get(fs, q))
  {
    if p != [] {
      MkdirAllExact(fs, Parent(p), umask);
      FileAboveParent(fs, p);
      if p in fs {
        NoFileAboveExisting(fs, p);
      }
      var made := MkdirAll(fs, Parent(p), umask);
      if made.Ok? {
        assert IsDir(made.value, Parent(p)) by {
          assert Get(made.value, Parent(p)).Some?;
          MkdirAllExact(fs, Parent(p), umask);
        }
        NoFileAboveExisting(made.value, Parent(p));
        FileAboveParent(made.value, p);
        assert Get(made.value, p) == Get(fs, p);
        if IsDir(fs, p) {
          SameMap(fs, made.value, p);
        }
        forall q
          ensures Get(made.value, q) == if q < p && q !in fs then Some(DirNode(DirDefault(umask))) else Get(fs, q)
        {
          PrefixCases(q, p);
        }
      }
    }
  }

  lemma SameMap(fs: FS, made: FS, p: Path)
    requires WellFormed(fs) && p in fs && p != []
    requires forall q :: Get(made, q) == Get(fs, q) || (q <= Parent(p) && q !in fs)
    ensures made == fs
  {
    forall q
      ensures Get(made, q) == Get(fs, q)
    {
      if q <= Parent(p) {
        PrefixCases(q, p);
        PrefixesAreDirs(fs, p, q);
      }
    }
    SameNodes(fs, made);
  }

  lemma ApplyItemExact(fs: FS, side: Side, umask: Mode, it: Item)
    requires WellFormed(fs)
    ensures ApplyItem(fs, side, umask, it).Ok? <==> !FileAbove(fs, it.path) && !Clashes(Get(fs, it.path), it.kind)
    ensures ApplyItem(fs, side, umask, it).Ok? ==>
              var after := ApplyItem(fs, side, umask, it).value;
              WellFormed(after) &&
              forall q :: Get(after, q) ==
                          if q == it.path then Some(NodeAfter(side, umask, Get(fs, q), it))
                          else if q < it.path && q !in fs then Some(DirNode(DirDefault(umask)))
                          else Get(fs, q)
  {
    match it.kind
    case DirectoryEntry =>
      MkdirAllExact(fs, it.path, umask);
    case FileEntry =>
      OpenOutputExact(fs, umask, it.path, it.mode);
      var (ready, r) := OpenOutput(fs, umask, it.path, it.mode);
      if r.Ok? {
        assert Get(ready, it.path).Some?;
        FinishFile(ready, side, it);
      }
  }

  lemma FinishFile(ready: FS, side: Side, it: Item)
    requires WellFormed(ready) && IsFile(ready, it.path) && ready[it.path].data == []
    ensures var after := FinishMode(Append(ready, it.path, it.data), it.path, it.mode, FinalFileMode(side, it.mode));
            WellFormed(after) &&
            forall q :: Get(after, q) ==
                        if q == it.path then
                          Some(FileNode(if it.mode != 0 then FinalFileMode(side, it.mode) else ready[it.path].mode, it.data))
                        else Get(ready, q)
  {
    assert [] + it.data == it.data;
  }

  // ---------------------------------------------------------------------
  // All the entries
  // ---------------------------------------------------------------------

  lemma RestWellOrdered(items: seq<Item>)
    requires WellOrdered(items) && items != []
    ensures WellOrdered(items[1..])
  {
    var rest := items[1..];
    forall i, j | 0 <= i < |rest| && 0 <= j < |rest| && rest[i].path < rest[j].path
      ensures i < j && rest[i].kind.DirectoryEntry?
    {
      assert items[i + 1].path < items[j + 1].path;
    }
  }

  /** The first entry neither clears nor blocks the way of a later one. */
  lemma FirstKeepsLater(fs: FS, side: Side, umask: Mode, items: seq<Item>, after: FS, j: nat)
    requires WellFormed(fs) && WellOrdered(items) && 0 < j < |items|
    requires ApplyItem(fs, side, umask, items[0]) == Ok(after)
    ensures Get(after, items[j].path) == Get(fs, items[j].path)
    ensures FileAbove(after, items[j].path) <==> FileAbove(fs, items[j].path)
  {
    var a, p := items[0], items[j].path;
    ApplyItemExact(fs, side, umask, a);
    hide ApplyItem;
    assert items[0].path != items[j].path;
    forall k | 0 <= k < |p|
      ensures IsFile(after, p[..k]) <==> IsFile(fs, p[..k])
    {
      var q := p[..k];
      assert Get(after, q).Some? && Get(after, q).value.FileNode? <==> IsFile(after, q);
      if q == a.path {
        assert items[0].path < items[j].path;
        assert !Clashes(Get(fs, a.path), a.kind);
      }
    }
  }

  lemma {:induction false} ApplyItemsSucceeds(fs: FS, side: Side, umask: Mode, items: seq<Item>)
    requires WellFormed(fs) && WellOrdered(items)
    ensures ApplyItems(fs, side, umask, items).Ok? <==> Compatible(fs, items)
    ensures ApplyItems(fs, side, umask, items).Ok? ==> WellFormed(ApplyItems(fs, side, umask, items).value)
    decreases |items|
  {
    if items != [] {
      ApplyItemExact(fs, side, umask, items[0]);
      var first := ApplyItem(fs, side, umask, items[0]);
      if first.Ok? {
        RestWellOrdered(items);
        ApplyItemsSucceeds(first.value, side, umask, items[1..]);
        hide ApplyItem;
        forall j | 0 < j < |items|
          ensures !FileAbove(first.value, items[j].path) <==> !FileAbove(fs, items[j].path)
          ensures Clashes(Get(first.value, items[j].path), items[j].kind) <==> Clashes(Get(fs, items[j].path), items[j].kind)
        {
          FirstKeepsLater(fs, side, umask, items, first.value, j);
        }
        CompatibleRest(fs, first.value, items);
      }
    }
  }

  lemma CompatibleRest(fs: FS, after: FS, items: seq<Item>)
    requires items != []
    requires !FileAbove(fs, items[0].path) && !Clashes(Get(fs, items[0].path), items[0].kind)
    requires forall j | 0 < j < |items| ::
               (FileAbove(after, items[j].path) <==> FileAbove(fs, items[j].path)) &&
               (Clashes(Get(after, items[j].path), items[j].kind) <==> Clashes(Get(fs, items[j].path), items[j].kind))
    ensures Compatible(fs, items) <==> Compatible(after, items[1..])
  {
    var rest := items[1..];
    if Compatible(fs, items) {
      forall i | 0 <= i < |rest|
        ensures !FileAbove(after, rest[i].path) && !Clashes(Get(after, rest[i].path), rest[i].kind)
      {
        assert rest[i] == items[i + 1];
      }
    }
    if Compatible(after, rest) {
      forall i | 0 <= i < |items|
        ensures !FileAbove(fs, items[i].path) && !Clashes(Get(fs, items[i].path), items[i].kind)
      {
        if i > 0 {
          assert rest[i - 1] == items[i];
        }
      }
    }
  }

  /** Unpacking well-ordered entries leaves exactly the overlay, path by path. */
  lemma {:induction false} ApplyItemsOverlay(fs: FS, side: Side, umask: Mode, items: seq<Item>, q: Path)
    requires WellFormed(fs) && WellOrdered(items)
    requires ApplyItems(fs, side, umask, items).Ok?
    ensures Get(ApplyItems(fs, side, umask, items).value, q) == OverlayAt(fs, side, umask, items, q)
    decreases |items|
  {
    if items != [] {
      ApplyItemExact(fs, side, umask, items[0]);
      var after := ApplyItem(fs, side, umask, items[0]).value;
      RestWellOrdered(items);
      ApplyItemsOverlay(after, side, umask, items[1..], q);
      OverlayStep(fs, side, umask, items, after, q);
    }
  }

  lemma OverlayStep(fs: FS, side: Side, umask: Mode, items: seq<Item>, after: FS, q: Path)
    requires WellFormed(fs) && WellOrdered(items) && items != []
    requires forall q :: Get(after, q) ==
                         if q == items[0].path then Some(NodeAfter(side, umask, Get(fs, q), items[0]))
                         else if q < items[0].path && q !in fs then Some(DirNode(DirDefault(umask)))
                         else Get(fs, q)
    ensures OverlayAt(after, side, umask, items[1..], q) == OverlayAt(fs, side, umask, items, q)
  {
    hide NodeAfter, WellFormed;
    RestWellOrdered(items);
    VisitsSplit(items, q);
    if Visits(items[1..], q) {
      LaterVisitStep(fs, side, umask, items, after, q);
    } else if items[0].path == q {
      OnlyVisit(items, 0, q);
      assert Get(after, q).Some?;
    } else {
      assert Get(after, q) ==
             if q < items[0].path && q !in fs then Some(DirNode(DirDefault(umask))) else Get(fs, q);
    }
  }

  /** A path that a later entry visits is left to that entry. */
  lemma LaterVisitStep(fs: FS, side: Side, umask: Mode, items: seq<Item>, after: FS, q: Path)
    requires WellFormed(fs) && WellOrdered(items) && items != [] && WellOrdered(items[1..]) && Visits(items[1..], q)
    requires forall q :: Get(after, q) ==
                         if q == items[0].path then Some(NodeAfter(side, umask, Get(fs, q), items[0]))
                         else if q < items[0].path && q !in fs then Some(DirNode(DirDefault(umask)))
                         else Get(fs, q)
    ensures OverlayAt(after, side, umask, items[1..], q) == OverlayAt(fs, side, umask, items, q)
  {
    hide NodeAfter, WellFormed, WellOrdered, OverlayAt;
    var i :| 0 <= i < |items[1..]| && items[1..][i].path == q;
    var it := items[1..][i];
    assert it == items[i + 1] && it in items && it in items[1..];
    FirstKeepsLaterPath(fs, side, umask, items, after, i + 1);
    OverlayAtItem(fs, side, umask, items, it);
    OverlayAtItem(after, side, umask, items[1..], it);
  }

  lemma FirstKeepsLaterPath(fs: FS, side: Side, umask: Mode, items: seq<Item>, after: FS, j: nat)
    requires WellFormed(fs) && WellOrdered(items) && 0 < j < |items|
    requires forall q :: Get(after, q) ==
                         if q == items[0].path then Some(NodeAfter(side, umask, Get(fs, q), items[0]))
                         else if q < items[0].path && q !in fs then Some(DirNode(DirDefault(umask)))
                         else Get(fs, q)
    ensures Get(after, items[j].path) == Get(fs, items[j].path)
  {
    assert items[0].path != items[j].path;
  }

  lemma VisitsSplit(items: seq<Item>, q: Path)
    requires items != []
    ensures Visits(items, q) <==> items[0].path == q || Visits(items[1..], q)
    ensures VisitsBelow(items, q) <==> q < items[0].path || VisitsBelow(items[1..], q)
  {
    var rest := items[1..];
    forall i | 0 < i < |items|
      ensures items[i] == rest[i - 1]
    {
    }
    if Visits(rest, q) {
      var i :| 0 <= i < |rest| && rest[i].path == q;
      assert items[i + 1].path == q;
    }
    if VisitsBelow(rest, q) {
      var i :| 0 <= i < |rest| && q < rest[i].path;
      assert q < items[i + 1].path;
    }
    if Visits(items, q) && items[0].path != q {
      var i :| 0 <= i < |items| && items[i].path == q;
      assert rest[i - 1].path == q;
    }
    if VisitsBelow(items, q) && !(q < items[0].path) {
      var i :| 0 <= i < |items| && q < items[i].path;
      assert q < rest[i - 1].path;
    }
  }

  /** A visited path's outcome is fixed by the one entry that visits it. */
  lemma OnlyVisit(items: seq<Item>, i: nat, q: Path)
    requires WellOrdered(items) && i < |items| && items[i].path == q
    ensures forall fs: FS, side, umask ::
              OverlayAt(fs, side, umask, items, q) == Some(NodeAfter(side, umask, Get(fs, q), items[i]))
  {
    assert Visits(items, q);
    assert forall j | 0 <= j < |items| && items[j].path == q :: j == i;
  }

  /** A visited path holds what its one item leaves there. */
  lemma OverlayAtItem(fs: FS, side: Side, umask: Mode, items: seq<Item>, it: Item)
    requires WellOrdered(items) && it in items
    ensures OverlayAt(fs, side, umask, items, it.path) == Some(NodeAfter(side, umask, Get(fs, it.path), it))
  {
    hide NodeAfter;
    var k :| 0 <= k < |items| && items[k] == it;
    OnlyVisit(items, k, it.path);
  }
}
