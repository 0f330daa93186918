/**
 Transfer states: the client summarises a local tree by walking it and a remote
 one by fs.stat and fs.list, and compares the two maps.
 */
module States {
  import opened Base
  import opened Paths
  import opened Trees
  import opened FileSystem
  import opened Manifest
  import opened Listing

  datatype PathState = PathState(kind: EntryKind, size: Option<nat>, sha256: Option<string>)
  type State = map<string, PathState>

  function StateOf(h: Hash, hashed: bool, n: Node): PathState {
    PathState(KindOf(n), if n.FileNode? then Some(|n.data|) else None, Digest(h, hashed, n))
  }

  /** The reference: what a tree's state maps the text of a relative path to. */
  ghost function StateAt(h: Hash, hashed: bool, t: Tree, rel: Path): Option<PathState> {
    match Lookup(t, rel) case None => None case Some(n) => Some(StateOf(h, hashed, n))
  }

  ghost function At(s: State, text: string): Option<PathState> {
    if text in s then Some(s[text]) else None
  }

  /** The map holds the texts of exactly the tree's paths, each with its node's state. */
  ghost predicate Summarises(s: State, h: Hash, hashed: bool, t: Tree) {
    (forall rel: Path :: At(s, PathText(rel)) == StateAt(h, hashed, t, rel)) &&
    forall text | text in s :: exists rel: Path :: text == PathText(rel)
  }

  /** A tree has one state, and it depends only on what the tree holds at each path. */
  lemma SummaryUnique(s: State, s': State, h: Hash, hashed: bool, t: Tree, t': Tree)
    requires Summarises(s, h, hashed, t) && Summarises(s', h, hashed, t')
    requires forall rel: Path :: Lookup(t, rel) == Lookup(t', rel)
    ensures s == s'
  {
    forall text
      ensures At(s, text) == At(s', text)
    {
      if text in s {
        var rel: Path :| text == PathText(rel);
        assert At(s, PathText(rel)) == StateAt(h, hashed, t, rel);
        assert At(s', PathText(rel)) == StateAt(h, hashed, t', rel);
      } else if text in s' {
        var rel: Path :| text == PathText(rel);
        assert At(s, PathText(rel)) == StateAt(h, hashed, t, rel);
        assert At(s', PathText(rel)) == StateAt(h, hashed, t', rel);
      }
    }
    SameStates(s, s');
  }

  lemma SameStates(s: State, s': State)
    requires forall text :: At(s, text) == At(s', text)
    ensures s == s'
  {
    forall text
      ensures text in s <==> text in s'
      ensures text in s ==> s[text] == s'[text]
    {
      assert At(s, text) == At(s', text);
    }
  }

  // ---------------------------------------------------------------------
  // The map a list of visits builds up
  // ---------------------------------------------------------------------

  function Inserted(h: Hash, hashed: bool, s: State, vs: seq<Visit>): State
    decreases |vs|
  {
    if vs == [] then s
    else Inserted(h, hashed, s[PathText(vs[0].path) := StateOf(h, hashed, vs[0].node)], vs[1..])
  }

  lemma {:induction false} InsertedAppend(h: Hash, hashed: bool, s: State, a: seq<Visit>, b: seq<Visit>)
    ensures Inserted(h, hashed, s, a + b) == Inserted(h, hashed, Inserted(h, hashed, s, a), b)
    decreases |a|
  {
    if a == [] {
      assert a + b == b;
    } else {
      assert (a + b)[1..] == a[1..] + b;
      InsertedAppend(h, hashed, s[PathText(a[0].path) := StateOf(h, hashed, a[0].node)], a[1..], b);
    }
  }

  lemma {:induction false} InsertedKeys(h: Hash, hashed: bool, s: State, vs: seq<Visit>, text: string)
    ensures text in Inserted(h, hashed, s, vs) <==> text in s || exists v | v in vs :: text == PathText(v.path)
    ensures (forall v | v in vs :: text != PathText(v.path)) ==> At(Inserted(h, hashed, s, vs), text) == At(s, text)
    decreases |vs|
  {
    if vs != [] {
      InsertedKeys(h, hashed, s[PathText(vs[0].path) := StateOf(h, hashed, vs[0].node)], vs[1..], text);
      assert forall v :: v in vs <==> v == vs[0] || v in vs[1..];
    }
  }

  lemma {:induction false} InsertedValue(h: Hash, hashed: bool, s: State, vs: seq<Visit>, v: Visit)
    requires v in vs && forall w | w in vs && w.path == v.path :: w == v
    ensures At(Inserted(h, hashed, s, vs), PathText(v.path)) == Some(StateOf(h, hashed, v.node))
    decreases |vs|
  {
    var next := s[PathText(vs[0].path) := StateOf(h, hashed, vs[0].node)];
    if v in vs[1..] {
      InsertedValue(h, hashed, next, vs[1..], v);
    } else {
      forall w | w in vs[1..]
        ensures PathText(w.path) != PathText(v.path)
      {
        if PathText(w.path) == PathText(v.path) {
          PathTextInjective(w.path, v.path);
        }
      }
      InsertedKeys(h, hashed, next, vs[1..], PathText(v.path));
    }
  }

  /** Inserting a tree's walk into the empty map gives the tree's summary. */
  lemma WalkSummarises(h: Hash, hashed: bool, t: Tree)
    requires ValidTree(t)
    ensures Summarises(Inserted(h, hashed, map[], SourceVisits(t)), h, hashed, t)
  {
    var vs := SourceVisits(t);
    var s := Inserted(h, hashed, map[], vs);
    hide SourceVisits, Inserted, PathText;
    forall rel: Path
      ensures At(s, PathText(rel)) == StateAt(h, hashed, t, rel)
    {
      SummarisesAt(h, hashed, t, rel);
    }
    forall text | text in s
      ensures exists rel: Path :: text == PathText(rel)
    {
      InsertedKeys(h, hashed, map[], vs, text);
    }
  }

  lemma SummarisesAt(h: Hash, hashed: bool, t: Tree, rel: Path)
    requires ValidTree(t)
    ensures At(Inserted(h, hashed, map[], SourceVisits(t)), PathText(rel)) == StateAt(h, hashed, t, rel)
  {
    var vs := SourceVisits(t);
    forall v | v in vs
      ensures Lookup(t, v.path) == Some(v.node)
    {
      SourceVisitSound(t, v);
    }
    if Lookup(t, rel).Some? {
      var v := Visit(rel, Lookup(t, rel).value);
      CanonLookup(t, rel);
      WalkComplete(Canon(t), [], rel);
      assert [] + rel == rel;
      hide SourceVisits, Inserted, PathText, Lookup;
      InsertedValue(h, hashed, map[], vs, v);
    } else {
      hide SourceVisits, Inserted, PathText;
      forall v | v in vs
        ensures PathText(v.path) != PathText(rel)
      {
        if PathText(v.path) == PathText(rel) {
          PathTextInjective(v.path, rel);
        }
      }
      InsertedKeys(h, hashed, map[], vs, PathText(rel));
    }
  }

  // ---------------------------------------------------------------------
  // The local collector
  // ---------------------------------------------------------------------

  /** The map being filled. */
  class StateMap {
    var state: State

    constructor ()
      ensures state == map[]
    {
      state := map[];
    }
  }

  /** relative_transfer_path: the text of what follows the root. */
  function RelativeTransferPath(root: Path, path: Path): Result<string, PathError> {
    if root == path then Ok("")
    else if root <= path then Ok(PathText(path[|root|..]))
    else Err(InvalidTransferPath(PathText(path)))
  }

  lemma RelativeBelow(root: Path, rel: Path)
    ensures RelativeTransferPath(root, root + rel) == Ok(PathText(rel))
  {
    if rel == [] {
      assert root + rel == root;
    } else {
      assert (root + rel)[|root|..] == rel;
    }
  }

  /** collect_local_transfer_state_recursive */
  method CollectLocalRecursive(h: Hash, hashed: bool, root: Path, rel: Path, t: Tree, acc: StateMap)
    modifies acc
    ensures acc.state == Inserted(h, hashed, old(acc.state), Walk(Canon(t), rel))
    decreases t, 1
  {
    RelativeBelow(root, rel);
    ghost var first, start := Visit(rel, NodeOf(t)), acc.state;
    OneInserted(h, hashed, start, first);
    WalkSplits(t, rel);
    acc.state := acc.state[RelativeTransferPath(root, root + rel).value := StateOf(h, hashed, NodeOf(t))];
    if t.DirTree? {
      var children := SortChildren(t.children);
      SortChildrenKeeps(t.children);
      assert BelowRoot(t, rel) == WalkEach(CanonEach(children), rel);
      hide *;
      CollectLocalChildren(h, hashed, root, rel, children, acc, t);
      InsertedAppend(h, hashed, start, [first], BelowRoot(t, rel));
    }
  }

  lemma OneInserted(h: Hash, hashed: bool, s: State, v: Visit)
    ensures Inserted(h, hashed, s, [v]) == s[PathText(v.path) := StateOf(h, hashed, v.node)]
  {
    assert [v][1..] == [];
  }

  method CollectLocalChildren(h: Hash, hashed: bool, root: Path, rel: Path, children: seq<Child>, acc: StateMap, ghost parent: Tree)
    requires forall c | c in children :: c.tree < parent
    modifies acc
    ensures acc.state == Inserted(h, hashed, old(acc.state), WalkEach(CanonEach(children), rel))
    decreases parent, 0
  {
    ghost var start, vs: seq<Visit> := acc.state, [];
    assert CanonEach(children)[0..] == CanonEach(children);
    assert [] + WalkEach(CanonEach(children), rel) == WalkEach(CanonEach(children), rel);
    hide Canon, CanonEach, Walk, WalkEach, StateOf, PathText;
    for i := 0 to |children|
      invariant acc.state == Inserted(h, hashed, start, vs)
      invariant vs + WalkEach(CanonEach(children)[i..], rel) == WalkEach(CanonEach(children), rel)
    {
      hide *;
      CollectLocalRecursive(h, hashed, root, rel + [children[i].name], children[i].tree, acc);
      InsertedAppend(h, hashed, start, vs, Walk(Canon(children[i].tree), rel + [children[i].name]));
      NextChild(children, i, rel, vs);
      vs := vs + Walk(Canon(children[i].tree), rel + [children[i].name]);
    }
    WalkEachEnd(CanonEach(children), rel);
    assert vs + [] == vs;
  }

  /** collect_local_transfer_state of the tree `t` found at `root`. */
  method CollectLocalState(h: Hash, hashed: bool, root: Path, t: Tree) returns (state: State)
    requires ValidTree(t)
    ensures Summarises(state, h, hashed, t)
  {
    var acc := new StateMap();
    CollectLocalRecursive(h, hashed, root, [], t, acc);
    WalkSummarises(h, hashed, t);
    state := acc.state;
  }

  // ---------------------------------------------------------------------
  // The remote collector
  // ---------------------------------------------------------------------

  datatype CollectError = RequestFailed(fs: FsError) | BadPath(path: PathError)

  /** Path::new of a listed path's text. */
  ghost function Parsed(text: string): Result<Path, PathError> {
    Join([], text)
  }

  /**
   collect_remote_transfer_state: fs.stat, then for a directory fs.list with everything included, each listed
   path parsed back and made relative. `t` is what the daemon finds at an existing root.
   */
  method CollectRemoteState(h: Hash, hashed: bool, fs: FS, root: Path, t: Tree)
    returns (r: Result<Option<State>, CollectError>)
    requires root in fs ==> ValidTree(t) && Holds(fs, root, t)
    ensures match Stat(fs, root)
            case Err(e) => r == Err(RequestFailed(e))
            case Ok(None) => r == Ok(None)
            case Ok(Some(_)) => r.Ok? && r.value.Some? && Summarises(r.value.value, h, hashed, t)
  {
    var stat := Stat(fs, root);
    if stat.Err? {
      return Err(RequestFailed(stat.error));
    }
    if stat.value.None? {
      return Ok(None);
    }
    RootNode(fs, root, t);
    var everything := Options(true, None, true, hashed);
    var entries := BlockingFsList(h, t, root, everything);
    var state: State := map["" := StateOf(h, hashed, stat.value.value)];
    WalkSummarises(h, hashed, t);
    WalkListed(h, hashed, t, root, state);
    if stat.value.value.DirNode? {
      ghost var vs := BelowRoot(t, []);
      hide *;
      for i := 0 to |entries|
        invariant |entries| == |vs|
        invariant forall k | 0 <= k < |entries| :: ListedAs(entries[k], h, hashed, root, vs[k])
        invariant Inserted(h, hashed, state, vs[i..]) == Inserted(h, hashed, map[], SourceVisits(t))
      {
        assert ListedAs(entries[i], h, hashed, root, vs[i]);
        ListedParses(entries[i], h, hashed, root, vs[i]);
        var path := JoinTransferRelativePath([], entries[i].path);
        JoinAnswers([], entries[i].path, path);
        var relative := RelativeTransferPath(root, path.value);
        InsertOne(h, hashed, state, vs, i);
        state := state[relative.value := StateFromEntry(entries[i])];
      }
      InsertedNone(h, hashed, state, vs);
    }
    r := Ok(Some(state));
  }

  /** transfer_state_from_entry */
  function StateFromEntry(e: ListEntry): PathState {
    PathState(e.kind, if e.kind.FileEntry? then Some(e.size) else None, e.sha256)
  }

  lemma RootNode(fs: FS, root: Path, t: Tree)
    requires root in fs && Holds(fs, root, t)
    ensures fs[root] == NodeOf(t)
  {
    assert root + [] == root;
    assert Get(fs, root + []) == Lookup(t, []);
  }

  ghost predicate ListedAs(e: ListEntry, h: Hash, hashed: bool, root: Path, v: Visit) {
    e == EntryAt(h, hashed, Visit(root + v.path, v.node))
  }

  lemma ListedParses(e: ListEntry, h: Hash, hashed: bool, root: Path, v: Visit)
    requires ListedAs(e, h, hashed, root, v)
    ensures Parsed(e.path) == Ok(root + v.path)
    ensures RelativeTransferPath(root, root + v.path) == Ok(PathText(v.path))
    ensures StateFromEntry(e) == StateOf(h, hashed, v.node)
  {
    JoinPathText([], root + v.path);
    assert [] + (root + v.path) == root + v.path;
    RelativeBelow(root, v.path);
  }

  lemma JoinAnswers(base: Path, text: string, r: Result<Path, PathError>)
    requires AllNormal(Components(text)) ==> r == Ok(base + NormalParts(Components(text)))
    requires !AllNormal(Components(text)) ==> r == Err(InvalidTransferPath(text))
    ensures r == Join(base, text)
  {
  }

  lemma InsertOne(h: Hash, hashed: bool, state: State, vs: seq<Visit>, i: nat)
    requires i < |vs|
    ensures Inserted(h, hashed, state, vs[i..])
         == Inserted(h, hashed, state[PathText(vs[i].path) := StateOf(h, hashed, vs[i].node)], vs[i + 1..])
  {
    assert vs[i..][1..] == vs[i + 1..];
  }

  lemma InsertedNone(h: Hash, hashed: bool, state: State, vs: seq<Visit>)
    ensures Inserted(h, hashed, state, vs[|vs|..]) == state
  {
  }

  /** Listing everything below a directory lists its whole walk, each path below the listed root. */
  lemma WalkListed(h: Hash, hashed: bool, t: Tree, root: Path, state: State)
    requires state == map["" := StateOf(h, hashed, NodeOf(t))]
    ensures t.FileTree? ==> Inserted(h, hashed, map[], SourceVisits(t)) == state
    ensures t.DirTree? ==>
              var entries, vs := Listing.Listed(h, t, root, Options(true, None, true, hashed)), BelowRoot(t, []);
              |entries| == |vs| && (forall k | 0 <= k < |vs| :: ListedAs(entries[k], h, hashed, root, vs[k])) &&
              Inserted(h, hashed, state, vs[0..]) == Inserted(h, hashed, map[], SourceVisits(t))
  {
    var first := Visit([], NodeOf(t));
    WalkSplits(t, []);
    OneInserted(h, hashed, map[], first);
    assert PathText([]) == "";
    if t.DirTree? {
      var o, vs := Options(true, None, true, hashed), BelowRoot(t, []);
      FilteredEverything(o, |root|, BelowRoot(t, root));
      BelowShifts(CanonEach(SortChildren(t.children)), root, []);
      assert root + [] == root;
      InsertedAppend(h, hashed, map[], [first], vs);
      assert vs[0..] == vs;
    }
  }

  /** Walking from a deeper starting path only puts that path in front. */
  lemma {:induction false} WalkShifts(t: Tree, base: Path, at: Path)
    ensures |Walk(t, base + at)| == |Walk(t, at)|
    ensures forall i | 0 <= i < |Walk(t, at)| ::
              Walk(t, base + at)[i] == Visit(base + Walk(t, at)[i].path, Walk(t, at)[i].node)
    decreases t, 1
  {
    if t.DirTree? {
      BelowShifts(t.children, base, at);
    }
  }

  lemma {:induction false} BelowShifts(cs: seq<Child>, base: Path, at: Path)
    ensures |WalkEach(cs, base + at)| == |WalkEach(cs, at)|
    ensures forall i | 0 <= i < |WalkEach(cs, at)| ::
              WalkEach(cs, base + at)[i] == Visit(base + WalkEach(cs, at)[i].path, WalkEach(cs, at)[i].node)
    decreases cs, 0
  {
    if cs != [] {
      assert base + at + [cs[0].name] == base + (at + [cs[0].name]);
      WalkShifts(cs[0].tree, base, at + [cs[0].name]);
      BelowShifts(cs[1..], base, at);
    }
  }

  /** The two collectors agree on equal trees, whatever order the directories are read in. */
  lemma CollectorsAgree(h: Hash, hashed: bool, fs: FS, root: Path, t: Tree, found: Tree, local: State, remote: State)
    requires Holds(fs, root, t) && Holds(fs, root, found)
    requires Summarises(local, h, hashed, t) && Summarises(remote, h, hashed, found)
    ensures local == remote
  {
    forall rel: Path
      ensures Lookup(t, rel) == Lookup(found, rel)
    {
      assert Get(fs, root + rel) == Lookup(t, rel);
    }
    SummaryUnique(local, remote, h, hashed, t, found);
  }

  // ---------------------------------------------------------------------
  // Comparing states
  // ---------------------------------------------------------------------

  /** transfer_states_match for one path. */
  predicate PathStatesMatch(expected: PathState, actual: PathState) {
    expected.kind == actual.kind && expected.size == actual.size &&
    match expected.sha256
    case None => true
    case Some(digest) => actual.sha256 == Some(digest)
  }

  predicate StatesMatch(expected: State, actual: State) {
    forall text | text in expected :: text in actual && PathStatesMatch(expected[text], actual[text])
  }

  /** Matching is a partial order on state maps. */
  lemma MatchIsPartialOrder(a: State, b: State, c: State)
    ensures StatesMatch(a, a)
    ensures StatesMatch(a, b) && StatesMatch(b, c) ==> StatesMatch(a, c)
    ensures StatesMatch(a, b) && StatesMatch(b, a) ==> a == b
  {
    if StatesMatch(a, b) && StatesMatch(b, a) {
      forall text
        ensures At(a, text) == At(b, text)
      {
      }
      SameStates(a, b);
    }
  }

  ghost predicate Injective(h: Hash) {
    forall a, b | h(a) == h(b) :: a == b
  }

  /** Same kind, and for files the same content. */
  predicate SameContent(a: Node, b: Node) {
    a.FileNode? == b.FileNode? && (a.FileNode? ==> a.data == b.data)
  }

  /** Same kind, and for files the same length. */
  predicate SameSize(a: Node, b: Node) {
    a.FileNode? == b.FileNode? && (a.FileNode? ==> |a.data| == |b.data|)
  }

  /** Everything of `t` stands in `actual` with the same kinds and contents; `actual` may hold more. */
  ghost predicate Contains(actual: Tree, t: Tree) {
    forall rel: Path :: Lookup(t, rel).Some? ==>
      Lookup(actual, rel).Some? && SameContent(Lookup(t, rel).value, Lookup(actual, rel).value)
  }

  ghost predicate ContainsSizes(actual: Tree, t: Tree) {
    forall rel: Path :: Lookup(t, rel).Some? ==>
      Lookup(actual, rel).Some? && SameSize(Lookup(t, rel).value, Lookup(actual, rel).value)
  }

  /** With an injective hash, states match exactly when the actual tree contains the expected one. */
  lemma MatchIsContainment(h: Hash, expected: Tree, actual: Tree, es: State, s: State)
    requires Injective(h) && Summarises(es, h, true, expected) && Summarises(s, h, true, actual)
    ensures StatesMatch(es, s) <==> Contains(actual, expected)
  {
    MatchByPath(h, true, expected, actual, es, s);
    forall rel: Path
      ensures MatchesAt(h, true, expected, actual, rel) <==>
              (Lookup(expected, rel).Some? ==>
                 Lookup(actual, rel).Some? && SameContent(Lookup(expected, rel).value, Lookup(actual, rel).value))
    {
      if Lookup(expected, rel).Some? && Lookup(actual, rel).Some? {
        var a, b := Lookup(expected, rel).value, Lookup(actual, rel).value;
        if a.FileNode? && b.FileNode? && h(a.data) == h(b.data) {
          assert a.data == b.data;
        }
      }
    }
    if Contains(actual, expected) {
      forall rel: Path
        ensures MatchesAt(h, true, expected, actual, rel)
      {
      }
    }
    if forall rel: Path :: MatchesAt(h, true, expected, actual, rel) {
      forall rel: Path | Lookup(expected, rel).Some?
        ensures Lookup(actual, rel).Some? && SameContent(Lookup(expected, rel).value, Lookup(actual, rel).value)
      {
        assert MatchesAt(h, true, expected, actual, rel);
      }
    }
  }

  /** Without hashes only kinds and sizes are compared. */
  lemma UnhashedMatchIsSizes(h: Hash, expected: Tree, actual: Tree, es: State, s: State)
    requires Summarises(es, h, false, expected) && Summarises(s, h, false, actual)
    ensures StatesMatch(es, s) <==> ContainsSizes(actual, expected)
  {
    MatchByPath(h, false, expected, actual, es, s);
    if ContainsSizes(actual, expected) {
      forall rel: Path
        ensures MatchesAt(h, false, expected, actual, rel)
      {
      }
    }
    if forall rel: Path :: MatchesAt(h, false, expected, actual, rel) {
      forall rel: Path | Lookup(expected, rel).Some?
        ensures Lookup(actual, rel).Some? && SameSize(Lookup(expected, rel).value, Lookup(actual, rel).value)
      {
        assert MatchesAt(h, false, expected, actual, rel);
      }
    }
  }

  ghost predicate MatchesAt(h: Hash, hashed: bool, expected: Tree, actual: Tree, rel: Path) {
    Lookup(expected, rel).Some? ==>
      Lookup(actual, rel).Some? &&
      PathStatesMatch(StateOf(h, hashed, Lookup(expected, rel).value), StateOf(h, hashed, Lookup(actual, rel).value))
  }

  lemma MatchByPath(h: Hash, hashed: bool, expected: Tree, actual: Tree, es: State, s: State)
    requires Summarises(es, h, hashed, expected) && Summarises(s, h, hashed, actual)
    ensures StatesMatch(es, s) <==> forall rel: Path :: MatchesAt(h, hashed, expected, actual, rel)
  {
    hide PathText, PathStatesMatch, StateOf;
    if StatesMatch(es, s) {
      forall rel: Path
        ensures MatchesAt(h, hashed, expected, actual, rel)
      {
        assert At(es, PathText(rel)) == StateAt(h, hashed, expected, rel);
        assert At(s, PathText(rel)) == StateAt(h, hashed, actual, rel);
      }
    }
    if forall rel: Path :: MatchesAt(h, hashed, expected, actual, rel) {
      forall text | text in es
        ensures text in s && PathStatesMatch(es[text], s[text])
      {
        var rel: Path :| text == PathText(rel);
        assert MatchesAt(h, hashed, expected, actual, rel);
        assert At(es, PathText(rel)) == StateAt(h, hashed, expected, rel);
        assert At(s, PathText(rel)) == StateAt(h, hashed, actual, rel);
      }
    }
  }
}
