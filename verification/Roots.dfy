/**
 Where the roots of a batch go: the daemon's resolution for pushes, the agent
 client's prediction of it, and the client's own resolution for pulls.
 */
module Roots {
  import opened Base
  import opened Paths
  import opened Trees
  import opened FileSystem
  import opened Manifest
  import opened Receiver

  /** A non-empty destination text: its path, and whether it ends in a slash. */
  datatype Destination = Destination(path: Path, trailingSlash: bool)

  /** metadata() of the destination text: a trailing slash demands a directory. */
  function StatText(fs: FS, d: Destination): Result<Option<Node>, FsError> {
    if d.trailingSlash && IsFile(fs, d.path) then Err(FsError.NotADirectory) else Stat(fs, d.path)
  }

  function JoinNames(base: Path, roots: seq<TransferRoot>): (paths: seq<Path>)
    ensures |paths| == |roots|
    ensures forall i | 0 <= i < |roots| :: paths[i] == base + [roots[i].sourceName]
  {
    if roots == [] then [] else [base + [roots[0].sourceName]] + JoinNames(base, roots[1..])
  }

  /** resolve_batch_destination_roots on the daemon; `None` is the empty text. */
  function DaemonRoots(fs: FS, destination: Option<Destination>, roots: seq<TransferRoot>)
    : Result<seq<Path>, TransferError>
  {
    if roots == [] then Err(NoRoots)
    else if RepeatedName(roots, {}).Some? then Err(InBatchManifest(DuplicateRootName(RepeatedName(roots, {}).value)))
    else if destination.None? then Err(EmptyDestination)
    else
      match StatText(fs, destination.value)
      case Err(e) => Err(OnDisk(e))
      case Ok(found) =>
        if |roots| == 1 then
          var treatAsDirectory := (found.Some? && found.value.DirNode?) || destination.value.trailingSlash;
          Ok([if treatAsDirectory then destination.value.path + [roots[0].sourceName] else destination.value.path])
        else if found.Some? && !found.value.DirNode? then Err(NotADirectoryDestination)
        else Ok(JoinNames(destination.value.path, roots))
  }

  /** The part of an fs.stat answer that root prediction looks at. */
  datatype RemoteStat = RemoteStat(present: bool, isDirectory: bool)

  function FsStat(fs: FS, destination: Option<Destination>): Result<RemoteStat, TransferError> {
    if destination.None? then Err(EmptyDestination)
    else
      match StatText(fs, destination.value)
      case Err(e) => Err(OnDisk(e))
      case Ok(None) => Ok(RemoteStat(false, false))
      case Ok(Some(node)) => Ok(RemoteStat(true, node.DirNode?))
  }

  /** resolve_remote_batch_roots: the agent client asks fs.stat and predicts the daemon's roots. */
  function PredictedRoots(fs: FS, destination: Option<Destination>, roots: seq<TransferRoot>)
    : Result<seq<Path>, TransferError>
  {
    if RepeatedName(roots, {}).Some? then Err(InBatchManifest(DuplicateRootName(RepeatedName(roots, {}).value)))
    else
      match FsStat(fs, destination)
      case Err(e) => Err(e)
      case Ok(stat) =>
        if |roots| == 1 then
          if (stat.present && stat.isDirectory) || destination.value.trailingSlash then
            Ok([destination.value.path + [roots[0].sourceName]])
          else Ok([destination.value.path])
        else if stat.present && !stat.isDirectory then Err(NotADirectoryDestination)
        else Ok(JoinNames(destination.value.path, roots))
  }

  /** resolve_local_batch_roots: where a pull writes. */
  function LocalRoots(fs: FS, destination: Destination, roots: seq<TransferRoot>): Result<seq<Path>, TransferError> {
    if roots == [] then Err(NoRoots)
    else if RepeatedName(roots, {}).Some? then Err(InBatchManifest(DuplicateRootName(RepeatedName(roots, {}).value)))
    else
      match StatText(fs, destination)
      case Err(e) => Err(OnDisk(e))
      case Ok(found) =>
        if |roots| == 1 then
          if (found.Some? && found.value.DirNode?) || destination.trailingSlash then
            Ok([destination.path + [roots[0].sourceName]])
          else Ok([destination.path])
        else if found.Some? && found.value.FileNode? then Err(NotADirectoryDestination)
        else Ok(JoinNames(destination.path, roots))
  }

  /**
   The prediction is the daemon's resolution, or both refuse - except that a manifest without roots is
   refused by the daemon alone, whenever the destination is a directory or absent.
   */
  lemma PredictionMatchesDaemon(fs: FS, destination: Option<Destination>, roots: seq<TransferRoot>)
    ensures roots != [] ==> PredictedRoots(fs, destination, roots) == DaemonRoots(fs, destination, roots)
    ensures roots == [] ==>
              DaemonRoots(fs, destination, roots).Err? &&
              (PredictedRoots(fs, destination, roots).Ok? <==>
                 destination.Some? && StatText(fs, destination.value).Ok? && !IsFile(fs, destination.value.path))
  {
  }

  // ---------------------------------------------------------------------
  // Which path a root goes to
  // ---------------------------------------------------------------------

  /** All three resolutions of a destination give the same answer. */
  ghost predicate AllResolve(fs: FS, d: Destination, roots: seq<TransferRoot>, r: Result<seq<Path>, TransferError>) {
    DaemonRoots(fs, Some(d), roots) == r && PredictedRoots(fs, Some(d), roots) == r && LocalRoots(fs, d, roots) == r
  }

  /** The destination cannot be looked at: a file stands above it, or it is one and was given with a trailing slash. */
  ghost predicate Unreadable(fs: FS, d: Destination) {
    (d.path !in fs && FileAbove(fs, d.path)) || (IsFile(fs, d.path) && d.trailingSlash)
  }

  /** One root, a file or a directory, goes into an existing directory or behind a trailing slash, else to the path itself. */
  lemma OneRootResolves(fs: FS, d: Destination, root: TransferRoot)
    ensures !Unreadable(fs, d) && (IsDir(fs, d.path) || d.trailingSlash) <==>
            AllResolve(fs, d, [root], Ok([d.path + [root.sourceName]]))
    ensures !Unreadable(fs, d) && !IsDir(fs, d.path) && !d.trailingSlash <==> AllResolve(fs, d, [root], Ok([d.path]))
    ensures Unreadable(fs, d) <==> AllResolve(fs, d, [root], Err(OnDisk(NotADirectory)))
  {
    RepeatedNameNone([root], {});
    assert [d.path + [root.sourceName]] != [d.path] by {
      assert |[d.path + [root.sourceName]][0]| != |[d.path][0]|;
    }
  }

  /** Several roots go below a destination that is or will be a directory, each under its own name. */
  lemma ManyRootsResolve(fs: FS, d: Destination, roots: seq<TransferRoot>)
    requires |roots| > 1
    ensures !DistinctRootNames(roots) ==>
              exists name: Name :: AllResolve(fs, d, roots, Err(InBatchManifest(DuplicateRootName(name))))
    ensures DistinctRootNames(roots) && Unreadable(fs, d) ==> AllResolve(fs, d, roots, Err(OnDisk(NotADirectory)))
    ensures DistinctRootNames(roots) && !Unreadable(fs, d) && IsFile(fs, d.path) ==>
              AllResolve(fs, d, roots, Err(NotADirectoryDestination))
    ensures DistinctRootNames(roots) && !Unreadable(fs, d) && !IsFile(fs, d.path) ==>
              AllResolve(fs, d, roots, Ok(seq(|roots|, i requires 0 <= i < |roots| => d.path + [roots[i].sourceName])))
  {
    RepeatedNameNone(roots, {});
    if DistinctRootNames(roots) && !Unreadable(fs, d) && !IsFile(fs, d.path) {
      assert JoinNames(d.path, roots) == seq(|roots|, i requires 0 <= i < |roots| => d.path + [roots[i].sourceName]);
    }
    if !DistinctRootNames(roots) {
      var name := RepeatedName(roots, {}).value;
      assert AllResolve(fs, d, roots, Err(InBatchManifest(DuplicateRootName(name))));
    }
  }

  /** Without a destination text, or without a root, there is nothing to resolve. */
  lemma NothingResolves(fs: FS, d: Option<Destination>, roots: seq<TransferRoot>)
    ensures DaemonRoots(fs, d, []) == Err(NoRoots) && (d.Some? ==> LocalRoots(fs, d.value, []) == Err(NoRoots))
    ensures roots != [] && DistinctRootNames(roots) ==>
              DaemonRoots(fs, None, roots) == PredictedRoots(fs, None, roots) == Err(EmptyDestination)
  {
    RepeatedNameNone(roots, {});
  }

  // ---------------------------------------------------------------------
  // Root paths that keep out of each other's way
  // ---------------------------------------------------------------------

  /** No root path lies at or below another. */
  ghost predicate Separate(rootPaths: seq<Path>) {
    forall i, j | 0 <= i < |rootPaths| && 0 <= j < |rootPaths| && i != j :: !(rootPaths[i] <= rootPaths[j])
  }

  lemma SiblingsAreSeparate(base: Path, roots: seq<TransferRoot>)
    requires DistinctRootNames(roots)
    ensures Separate(JoinNames(base, roots))
  {
    var paths := JoinNames(base, roots);
    forall i, j | 0 <= i < |paths| && 0 <= j < |paths| && i != j
      ensures !(paths[i] <= paths[j])
    {
      assert paths[i][|base|] == roots[i].sourceName && paths[j][|base|] == roots[j].sourceName;
    }
  }

  /** Resolved roots are one path each, separate, and either the destination or directly below it. */
  lemma ResolvedRootsAreSeparate(fs: FS, destination: Destination, roots: seq<TransferRoot>)
    requires LocalRoots(fs, destination, roots).Ok?
    ensures var paths := LocalRoots(fs, destination, roots).value;
            |paths| == |roots| && Separate(paths) &&
            forall i | 0 <= i < |roots| ::
              paths[i] == destination.path + [roots[i].sourceName] || (|roots| == 1 && paths[i] == destination.path)
  {
    RepeatedNameNone(roots, {});
    SiblingsAreSeparate(destination.path, roots);
  }

  lemma DaemonAndLocalAgree(fs: FS, destination: Destination, roots: seq<TransferRoot>)
    ensures DaemonRoots(fs, Some(destination), roots) == LocalRoots(fs, destination, roots)
  {
  }

  // ---------------------------------------------------------------------
  // Root names as they are received
  // ---------------------------------------------------------------------

  predicate Absolute(name: string) {
    name != "" && name[0] == '/'
  }

  function WithoutDots(components: seq<Component>): seq<Component> {
    if components == [] then []
    else (if components[0].CurDir? then [] else [components[0]]) + WithoutDots(components[1..])
  }

  /** What a name appends: its components without the dots. */
  function Appends(name: string): seq<Component> {
    WithoutDots(Components(name))
  }

  /**
   Joining a received root name, which no receiver checks: an absolute one takes the place of the destination, any
   other appends its components.
   */
  function JoinName(destination: seq<Component>, name: string): seq<Component> {
    if Absolute(name) then Components(name) else destination + Appends(name)
  }

  predicate DirectlyBelow(destination: seq<Component>, p: seq<Component>) {
    |p| == |destination| + 1 && destination <= p && p[|destination|].Normal?
  }

  /** Apart from dots, the name is one normal component. */
  predicate OneComponent(name: string) {
    !Absolute(name) && |Appends(name)| == 1 && Appends(name)[0].Normal?
  }

  lemma {:induction false} NormalHaveNoDots(components: seq<Component>)
    requires forall i | 0 <= i < |components| :: !components[i].CurDir?
    ensures WithoutDots(components) == components
  {
    if components != [] {
      NormalHaveNoDots(components[1..]);
    }
  }

  lemma PartsUnfold(parts: seq<string>)
    requires parts != [] && forall part | part in parts :: '/' !in part
    ensures forall part | part in parts[1..] :: '/' !in part
    ensures var later := PartComponents(parts[1..]);
            PartComponents(parts) ==
            (if parts[0] == "" || parts[0] == "." then [] else if parts[0] == ".." then [ParentDir] else [Normal(parts[0])]) + later
  {
  }

  lemma {:induction false} PartsHaveNoDots(parts: seq<string>)
    requires forall part | part in parts :: '/' !in part
    ensures forall i | 0 <= i < |PartComponents(parts)| :: !PartComponents(parts)[i].CurDir? && !PartComponents(parts)[i].RootDir?
    ensures (exists i | 0 <= i < |parts| :: parts[i] == "..") ==>
              exists i | 0 <= i < |PartComponents(parts)| :: PartComponents(parts)[i].ParentDir?
  {
    if parts != [] {
      PartsUnfold(parts);
      hide PartComponents;
      var cs, later := PartComponents(parts), PartComponents(parts[1..]);
      PartsHaveNoDots(parts[1..]);
      var n := |cs| - |later|;
      assert forall i | 0 <= i < |later| :: cs[n + i] == later[i];
      if i :| 0 <= i < |parts| && parts[i] == ".." {
        if i == 0 {
          assert cs[0].ParentDir?;
        } else {
          assert parts[1..][i - 1] == "..";
        }
      }
    }
  }

  lemma OneNamed(parts: seq<string>)
    requires forall part | part in parts :: '/' !in part
    ensures |PartComponents(parts)| == 1 && PartComponents(parts)[0].Normal? <==>
            (forall i | 0 <= i < |parts| :: parts[i] != "..") && |NamingParts(parts)| == 1
  {
    PartsAreNormal(parts);
    PartsHaveNoDots(parts);
    hide PartComponents, NamingParts;
    var cs := PartComponents(parts);
    assert AllNormal(cs) ==> |NormalParts(cs)| == |cs|;
  }

  /** The parts that count: a dot in front does not. */
  function WithoutFirstDot(parts: seq<string>): seq<string>
    requires parts != []
  {
    if parts[0] == "." then parts[1..] else parts
  }

  lemma AppendsNamed(name: string)
    requires !Absolute(name)
    ensures var named := WithoutFirstDot(SplitSlash(name));
            (forall part | part in named :: '/' !in part) && Appends(name) == PartComponents(named)
  {
    var parts := SplitSlash(name);
    var named := WithoutFirstDot(parts);
    assert forall part | part in named :: part in parts;
    PartsHaveNoDots(named);
    hide PartComponents, SplitSlash;
    NormalHaveNoDots(PartComponents(named));
    DotFirst(parts);
  }

  lemma SameNames(parts: seq<string>)
    requires parts != []
    ensures var named := WithoutFirstDot(parts);
            NamingParts(named) == NamingParts(parts) &&
            ((forall i | 0 <= i < |named| :: named[i] != "..") <==> forall i | 0 <= i < |parts| :: parts[i] != "..")
  {
    DotFirst(parts);
    hide NamingParts;
    if parts[0] == "." {
      assert forall i | 0 < i < |parts| :: parts[i] == parts[1..][i - 1];
    }
  }

  /** On the text itself: no slash in front, no dot-dot between its slashes, and only one part that names something. */
  lemma OneComponentIff(name: string)
    ensures OneComponent(name) <==>
            !(name != "" && name[0] == '/') && (forall i | 0 <= i < |SplitSlash(name)| :: SplitSlash(name)[i] != "..") &&
            |NamingParts(SplitSlash(name))| == 1
  {
    hide Appends, NamingParts, PartComponents, WithoutFirstDot;
    if !Absolute(name) {
      AppendsNamed(name);
      OneNamed(WithoutFirstDot(SplitSlash(name)));
      SameNames(SplitSlash(name));
    }
  }

  lemma DotFirst(parts: seq<string>)
    requires parts != []
    ensures parts[0] == "." ==> NamingParts(parts) == NamingParts(parts[1..])
    ensures parts[0] == "." ==> forall rest: seq<Component> :: WithoutDots([CurDir] + rest) == WithoutDots(rest)
  {
    forall rest: seq<Component>
      ensures WithoutDots([CurDir] + rest) == WithoutDots(rest)
    {
      assert ([CurDir] + rest)[1..] == rest;
    }
  }

  /** The names that a directory entry can have, which is what every walk sends, resolve as the model's roots do. */
  lemma NamesAreOneComponent(destination: seq<Component>, name: Name)
    ensures OneComponent(name) && JoinName(destination, name) == destination + [Normal(name)]
  {
    SplitName(name, "");
    NamesAreNormal([name]);
    var parts := SplitSlash(name);
    assert parts == [name];
    assert Components(name) == PartComponents([name]) == [Normal(name)];
    assert [Normal(name)][1..] == [];
    assert WithoutDots([Normal(name)]) == [Normal(name)] + WithoutDots([]);
    assert Appends(name) == [Normal(name)];
  }

  /** A name that is not absolute leads directly below the destination exactly when it is one normal component. */
  lemma RelativeNameBelowIff(destination: seq<Component>, name: string)
    requires !Absolute(name)
    ensures DirectlyBelow(destination, JoinName(destination, name)) <==> OneComponent(name)
  {
    var below := Appends(name);
    assert |below| == 1 ==> (destination + below)[|destination|] == below[0];
  }

  /** Whatever the destination, a name leads directly below it exactly when it is one normal component. */
  lemma NameAlwaysBelowIff(name: string)
    ensures (forall destination: seq<Component> :: DirectlyBelow(destination, JoinName(destination, name))) <==>
            OneComponent(name)
  {
    if Absolute(name) {
      var elsewhere := Components(name);
      assert !DirectlyBelow(elsewhere, JoinName(elsewhere, name));
    } else {
      forall destination: seq<Component>
        ensures DirectlyBelow(destination, JoinName(destination, name)) <==> OneComponent(name)
      {
        RelativeNameBelowIff(destination, name);
      }
      if !OneComponent(name) {
        assert !DirectlyBelow([], JoinName([], name));
      }
    }
  }

  /** When two received names lead to one path, each relative or absolute. */
  ghost predicate Meet(destination: seq<Component>, a: string, b: string) {
    if Absolute(a) && Absolute(b) then Components(a) == Components(b)
    else if Absolute(a) then Components(a) == destination + Appends(b)
    else if Absolute(b) then destination + Appends(a) == Components(b)
    else Appends(a) == Appends(b)
  }

  /** Two names lead to one path exactly when they append the same components, wherever they are appended. */
  lemma NamesMeetIff(destination: seq<Component>, a: string, b: string)
    ensures JoinName(destination, a) == JoinName(destination, b) <==> Meet(destination, a, b)
  {
    if !Absolute(a) && !Absolute(b) {
      assert (destination + Appends(a))[|destination|..] == Appends(a);
      assert (destination + Appends(b))[|destination|..] == Appends(b);
    }
  }

  /** An absolute name and a relative one meet at some destination exactly when the one ends in what the other appends. */
  lemma MeetSomewhereIff(a: string, b: string)
    requires Absolute(a) && !Absolute(b)
    ensures (exists destination: seq<Component> :: JoinName(destination, a) == JoinName(destination, b)) <==>
            |Appends(b)| <= |Components(a)| && Components(a)[|Components(a)| - |Appends(b)|..] == Appends(b)
  {
    hide Components, WithoutDots;
    var whole, end := Components(a), Appends(b);
    if |end| <= |whole| && whole[|whole| - |end|..] == end {
      var destination := whole[..|whole| - |end|];
      assert destination + end == whole;
      assert JoinName(destination, a) == JoinName(destination, b);
    }
    if destination: seq<Component> :| JoinName(destination, a) == JoinName(destination, b) {
      assert whole == destination + end;
    }
  }

  /** Names that directory entries can have lead to one path only if they are the same. */
  lemma EntryNamesMeetIff(destination: seq<Component>, a: Name, b: Name)
    ensures JoinName(destination, a) == JoinName(destination, b) <==> a == b
  {
    hide JoinName;
    NamesAreOneComponent(destination, a);
    NamesAreOneComponent(destination, b);
    assert (destination + [Normal(a)])[|destination|] == Normal(a);
    assert (destination + [Normal(b)])[|destination|] == Normal(b);
  }

  /** Where the roots of a batch lead, one path for each received name. */
  function JoinEach(destination: seq<Component>, names: seq<string>): (paths: seq<seq<Component>>)
    ensures |paths| == |names|
    ensures forall i | 0 <= i < |names| :: paths[i] == JoinName(destination, names[i])
  {
    seq(|names|, i requires 0 <= i < |names| => JoinName(destination, names[i]))
  }

  /** No path lies at or below another. */
  ghost predicate Apart(paths: seq<seq<Component>>) {
    forall i, j | 0 <= i < |paths| && 0 <= j < |paths| && i != j :: !(paths[i] <= paths[j])
  }

  /** Relative names lead to separate roots exactly when no name's components begin another's. */
  lemma RelativeRootsApartIff(destination: seq<Component>, names: seq<string>)
    requires forall i | 0 <= i < |names| :: !Absolute(names[i])
    ensures Apart(JoinEach(destination, names)) <==>
            forall i, j | 0 <= i < |names| && 0 <= j < |names| && i != j :: !(Appends(names[i]) <= Appends(names[j]))
  {
    hide Components, WithoutDots;
    var paths := JoinEach(destination, names);
    forall i, j | 0 <= i < |names| && 0 <= j < |names|
      ensures paths[i] <= paths[j] <==> Appends(names[i]) <= Appends(names[j])
    {
      assert paths[i] == destination + Appends(names[i]) && paths[j] == destination + Appends(names[j]);
      SharedBeginning(destination, Appends(names[i]), Appends(names[j]));
    }
  }

  lemma SharedBeginning<T>(start: seq<T>, a: seq<T>, b: seq<T>)
    ensures start + a <= start + b <==> a <= b
  {
    if start + a <= start + b {
      forall k | 0 <= k < |a|
        ensures a[k] == b[k]
      {
        assert (start + a)[|start| + k] == (start + b)[|start| + k];
      }
    }
  }

  /** Names that are one normal component each lead to separate roots exactly when their components differ. */
  lemma RootsApartIff(destination: seq<Component>, names: seq<string>)
    requires forall i | 0 <= i < |names| :: OneComponent(names[i])
    ensures Apart(JoinEach(destination, names)) <==>
            forall i, j | 0 <= i < j < |names| :: Appends(names[i]) != Appends(names[j])
  {
    hide Components, WithoutDots;
    RelativeRootsApartIff(destination, names);
    forall i, j | 0 <= i < |names| && 0 <= j < |names|
      ensures Appends(names[i]) <= Appends(names[j]) <==> Appends(names[i]) == Appends(names[j])
    {
      assert OneComponent(names[i]) && OneComponent(names[j]);
    }
  }

  /** The uniqueness check compares texts: two different names may still lead to the same path. */
  lemma DifferentNamesMeet(destination: seq<Component>)
    ensures "a" != "a/" && JoinName(destination, "a") == JoinName(destination, "a/") == destination + [Normal("a")]
  {
    NamesAreOneComponent(destination, "a");
    SplitName("a", "");
    assert "a/" == "a" + "/" + "";
    assert SplitSlash("a/") == ["a", ""];
    assert ["a", ""][1..] == [""] && [""][1..] == [];
    assert PartComponents(["a", ""]) == [Normal("a")];
    assert [Normal("a")][1..] == [];
  }
}
