/**
 What the files of a batch get from a run of blocks that breaks off: block
 lengths against manifest sizes, with no frames in between.
 */
module Filling {
  import opened Base
  import opened Frames
  import opened Sender

  // ---------------------------------------------------------------------
  // Filling files
  // ---------------------------------------------------------------------

  /** How many blocks a file of the given size takes before it is full, refuses one, or has none left to take. */
  function Fit(blocks: seq<ReadBlock>, size: nat): (p: nat)
    ensures p <= |blocks|
  {
    if size == 0 || blocks == [] || |blocks[0]| > size then 0 else 1 + Fit(blocks[1..], size - |blocks[0]|)
  }

  /** The bytes each file gets, up to and including the file at which a receiver stops. */
  function Filled(sizes: seq<nat>, blocks: seq<ReadBlock>): seq<seq<Byte>> {
    if sizes == [] then []
    else
      var p := Fit(blocks, sizes[0]);
      var data := Joined(blocks[..p]);
      if |data| == sizes[0] then [data] + Filled(sizes[1..], blocks[p..]) else [data]
  }

  /** How many blocks all files together take, by the lengths alone. */
  function Taken(sizes: seq<nat>, lens: seq<nat>): (n: nat)
    ensures n <= |lens|
    decreases |sizes| + |lens|
  {
    if sizes == [] || lens == [] then 0
    else if sizes[0] == 0 then Taken(sizes[1..], lens)
    else if lens[0] > sizes[0] then 0
    else 1 + Taken([sizes[0] - lens[0]] + sizes[1..], lens[1..])
  }

  /** The first block that arrives for a file that wants bytes joins what the file gets from the rest. */
  lemma FilledStep(sizes: seq<nat>, blocks: seq<ReadBlock>)
    requires sizes != [] && blocks != [] && |blocks[0]| <= sizes[0]
    ensures var later := Filled([sizes[0] - |blocks[0]|] + sizes[1..], blocks[1..]);
            later != [] && Filled(sizes, blocks) == [blocks[0] + later[0]] + later[1..]
  {
    var left := [sizes[0] - |blocks[0]|] + sizes[1..];
    var p := Fit(blocks[1..], left[0]);
    assert left[1..] == sizes[1..];
    assert blocks[..1 + p][1..] == blocks[1..][..p] && blocks[..1 + p][0] == blocks[0];
    assert blocks[1 + p..] == blocks[1..][p..];
    assert Fit(blocks, sizes[0]) == 1 + p;
    assert Joined(blocks[..1 + p]) == blocks[0] + Joined(blocks[1..][..p]);
  }

  lemma FilledFirst(sizes: seq<nat>, blocks: seq<ReadBlock>)
    requires sizes != []
    ensures sizes[0] == 0 ==> Filled(sizes, blocks) == [[]] + Filled(sizes[1..], blocks)
    ensures sizes[0] > 0 && (blocks == [] || |blocks[0]| > sizes[0]) ==> Filled(sizes, blocks) == [[]]
  {
    assert blocks[..0] == [] && blocks[0..] == blocks;
  }

  lemma LengthsCons(blocks: seq<ReadBlock>)
    requires blocks != []
    ensures Lengths(blocks) != [] && Lengths(blocks)[0] == |blocks[0]| && Lengths(blocks)[1..] == Lengths(blocks[1..])
  {
  }

  lemma FlattenCons<T>(first: seq<T>, later: seq<seq<T>>)
    ensures Flatten([first] + later) == first + Flatten(later)
  {
    assert ([first] + later)[1..] == later;
  }

  /** Put together, the files hold exactly the blocks that were taken. */
  lemma {:induction false} FilledIsTaken(sizes: seq<nat>, blocks: seq<ReadBlock>)
    ensures |Lengths(blocks)| == |blocks|
    ensures Flatten(Filled(sizes, blocks)) == Joined(blocks[..Taken(sizes, Lengths(blocks))])
    decreases |sizes| + |blocks|
  {
    hide Fit, Filled, Flatten, Lengths, Joined, Taken;
    LengthsAt(blocks);
    TakenStages(sizes, Lengths(blocks));
    JoinedNothing(blocks);
    if sizes == [] {
      NothingFilled(blocks);
    } else {
      FilledFirst(sizes, blocks);
      FlattenCons<Byte>([], []);
      NothingFilled(blocks);
      if sizes[0] == 0 {
        FilledIsTaken(sizes[1..], blocks);
        FlattenCons([], Filled(sizes[1..], blocks));
        if blocks == [] {
          assert blocks[..Taken(sizes[1..], Lengths(blocks))] == [];
        }
      } else if blocks != [] && |blocks[0]| <= sizes[0] {
        LengthsCons(blocks);
        FilledStep(sizes, blocks);
        var left := [sizes[0] - |blocks[0]|] + sizes[1..];
        FilledIsTaken(left, blocks[1..]);
        JoinedCons(blocks, Taken(left, Lengths(blocks[1..])));
        var later := Filled(left, blocks[1..]);
        FlattenCons(later[0], later[1..]);
        assert later == [later[0]] + later[1..];
        FlattenCons(blocks[0] + later[0], later[1..]);
        Associate(blocks[0], later[0], Flatten(later[1..]));
      } else {
        assert Filled(sizes, blocks) == [[]] + [];
        if blocks != [] {
          LengthsCons(blocks);
        }
      }
    }
  }

  lemma TakenStages(sizes: seq<nat>, lens: seq<nat>)
    ensures sizes == [] || lens == [] ==> Taken(sizes, lens) == 0
    ensures sizes != [] && sizes[0] == 0 && lens != [] ==> Taken(sizes, lens) == Taken(sizes[1..], lens)
    ensures sizes != [] && lens != [] && 0 < sizes[0] && lens[0] > sizes[0] ==> Taken(sizes, lens) == 0
    ensures sizes != [] && lens != [] && 0 < sizes[0] && lens[0] <= sizes[0] ==>
              Taken(sizes, lens) == 1 + Taken([sizes[0] - lens[0]] + sizes[1..], lens[1..])
  {
  }

  lemma NothingFilled(blocks: seq<ReadBlock>)
    ensures Filled([], blocks) == [] && Flatten<Byte>([]) == []
  {
  }

  lemma JoinedNothing(blocks: seq<ReadBlock>)
    ensures Joined([]) == [] && blocks[..0] == []
  {
  }

  lemma JoinedCons(blocks: seq<ReadBlock>, n: nat)
    requires blocks != [] && n < |blocks|
    ensures Joined(blocks[..1 + n]) == blocks[0] + Joined(blocks[1..][..n])
  {
    assert blocks[..1 + n][1..] == blocks[1..][..n];
  }

  lemma {:induction false} JoinedSplits(blocks: seq<ReadBlock>, p: nat)
    requires p <= |blocks|
    ensures Joined(blocks) == Joined(blocks[..p]) + Joined(blocks[p..])
    decreases p
  {
    if p == 0 {
      assert blocks[..0] == [] && blocks[0..] == blocks;
    } else {
      JoinedSplits(blocks[1..], p - 1);
      assert blocks[..p][1..] == blocks[1..][..p - 1] && blocks[1..][p - 1..] == blocks[p..];
      assert Joined(blocks[..p]) == blocks[0] + Joined(blocks[1..][..p - 1]);
      Associate(blocks[0], Joined(blocks[1..][..p - 1]), Joined(blocks[p..]));
    }
  }

  lemma JoinedPrefix(blocks: seq<ReadBlock>, p: nat, q: nat)
    requires p <= q <= |blocks|
    ensures Joined(blocks[..p]) <= Joined(blocks[..q]) <= Joined(blocks)
    ensures |Joined(blocks[..p])| == |Joined(blocks[..q])| <==> p == q
  {
    JoinedSplits(blocks, q);
    JoinedSplits(blocks[..q], p);
    assert blocks[..q][..p] == blocks[..p];
    if p < q {
      assert blocks[..q][p..][0] == blocks[p];
    } else {
      assert blocks[..q][p..] == [];
    }
  }

  /** Where exactly a file is full, if it is. */
  lemma {:induction false} FitExact(blocks: seq<ReadBlock>, size: nat, p: nat)
    requires p <= |blocks| && |Joined(blocks[..p])| == size
    ensures p == Fit(blocks, size)
    decreases p
  {
    if p == 0 {
      assert blocks[..0] == [];
    } else {
      assert blocks[..p][1..] == blocks[1..][..p - 1] && blocks[..p][0] == blocks[0];
      FitExact(blocks[1..], size - |blocks[0]|, p - 1);
    }
  }

  /** Of too few blocks a file takes all. */
  lemma {:induction false} FitAll(blocks: seq<ReadBlock>, size: nat)
    requires |Joined(blocks)| <= size
    ensures Fit(blocks, size) == |blocks|
  {
    if blocks != [] {
      FitAll(blocks[1..], size - |blocks[0]|);
    }
  }

  // ---------------------------------------------------------------------
  // Which files get what
  // ---------------------------------------------------------------------

  /** All blocks read until every file is read or one is missing or changed. */
  function SentBlocks(sizes: seq<nat>, fileReads: seq<seq<ReadBlock>>): seq<ReadBlock> {
    if sizes == [] || fileReads == [] then []
    else if |Joined(fileReads[0])| != sizes[0] then fileReads[0]
    else fileReads[0] + SentBlocks(sizes[1..], fileReads[1..])
  }

  function BlocksBefore(fileReads: seq<seq<ReadBlock>>, j: nat): nat
    requires j <= |fileReads|
  {
    if j == 0 then 0 else |fileReads[0]| + BlocksBefore(fileReads[1..], j - 1)
  }

  /** The bytes a file itself has yielded; a missing one none. */
  function OwnBytes(fileReads: seq<seq<ReadBlock>>, j: nat): seq<Byte> {
    if j < |fileReads| then Joined(fileReads[j]) else []
  }

  /** File `j` is the first that is missing or whose byte count differs from its manifest size. */
  ghost predicate FailsAt(sizes: seq<nat>, fileReads: seq<seq<ReadBlock>>, j: nat) {
    j < |sizes| && j <= |fileReads| && (forall i | 0 <= i < j :: |Joined(fileReads[i])| == sizes[i]) &&
    (j < |fileReads| ==> |Joined(fileReads[j])| != sizes[j])
  }

  /** The next file that wants any bytes wants at least `len`. */
  predicate TakesBlock(sizes: seq<nat>, len: nat) {
    if sizes == [] then false
    else if sizes[0] == 0 then TakesBlock(sizes[1..], len)
    else len <= sizes[0]
  }

  /**
   Among the first `q` blocks are a first few of file `j` that fill its manifest size exactly, and one more, for which
   the next file that wants any bytes has room.
   */
  ghost predicate SpillsOver(sizes: seq<nat>, fileReads: seq<seq<ReadBlock>>, j: nat, q: nat)
    requires j < |sizes|
  {
    j < |fileReads| &&
    exists p | 0 <= p < |fileReads[j]| ::
      |Joined(fileReads[j][..p])| == sizes[j] && TakesBlock(sizes[j + 1..], |fileReads[j][p]|) &&
      BlocksBefore(fileReads, j) + p < q
  }

  /** Some file has got bytes. */
  ghost predicate AnyWritten(written: seq<seq<Byte>>) {
    exists k | 0 <= k < |written| :: written[k] != []
  }

  /** Some file after `j` has got bytes. */
  ghost predicate WrittenBeyond(written: seq<seq<Byte>>, j: nat) {
    exists k | j < k < |written| :: written[k] != []
  }

  /** Files up to `j` hold a beginning of their own bytes; what `j` and later ones hold is a beginning of those of `j`. */
  ghost predicate HoldOwn(fileReads: seq<seq<ReadBlock>>, j: nat, written: seq<seq<Byte>>) {
    (forall k | 0 <= k <= j && k < |written| :: written[k] <= OwnBytes(fileReads, k)) &&
    (j <= |written| ==> Flatten(written[j..]) <= OwnBytes(fileReads, j))
  }

  /** From no block nothing is filled; of some, the first file that wants bytes takes the first or refuses it. */
  lemma {:induction false} FirstTaken(sizes: seq<nat>, blocks: seq<ReadBlock>)
    ensures AnyWritten(Filled(sizes, blocks)) <==> blocks != [] && TakesBlock(sizes, |blocks[0]|)
  {
    hide Filled, Joined;
    if sizes == [] {
      NothingFilled(blocks);
    } else {
      FilledFirst(sizes, blocks);
      if sizes[0] == 0 {
        FirstTaken(sizes[1..], blocks);
        BeyondFirst([], Filled(sizes[1..], blocks));
        var written, later := Filled(sizes, blocks), Filled(sizes[1..], blocks);
        assert forall k | 0 <= k < |later| :: written[k + 1] == later[k];
      } else if blocks != [] && |blocks[0]| <= sizes[0] {
        FilledStep(sizes, blocks);
        assert Filled(sizes, blocks)[0] != [];
      }
    }
  }

  lemma BeyondFirst(first: seq<Byte>, later: seq<seq<Byte>>)
    ensures WrittenBeyond([first] + later, 0) <==> AnyWritten(later)
  {
    var written := [first] + later;
    assert forall k | 0 <= k < |later| :: written[k + 1] == later[k];
  }

  /** The missing or changed file itself, from the first `q` of its blocks. */
  lemma ChangedFile(sizes: seq<nat>, fileReads: seq<seq<ReadBlock>>, q: nat)
    requires FailsAt(sizes, fileReads, 0) && q <= |SentBlocks(sizes, fileReads)|
    ensures var written := Filled(sizes, SentBlocks(sizes, fileReads)[..q]);
            HoldOwn(fileReads, 0, written) && (WrittenBeyond(written, 0) <==> SpillsOver(sizes, fileReads, 0, q))
  {
    hide Fit, Filled, TakesBlock, Taken, Flatten, AnyWritten, WrittenBeyond;
    var own: seq<ReadBlock> := if fileReads == [] then [] else fileReads[0];
    assert SentBlocks(sizes, fileReads) == own;
    var blocks := own[..q];
    FilledIsTaken(sizes, blocks);
    var n := Taken(sizes, Lengths(blocks));
    assert blocks[..n] == own[..n];
    JoinedPrefix(own, n, q);
    FilledUnfolds(sizes, blocks);
    var p := Fit(blocks, sizes[0]);
    assert blocks[..p] == own[..p];
    JoinedPrefix(own, p, q);
    var written := Filled(sizes, blocks);
    assert written[0..] == written;
    FirstTaken(sizes[1..], blocks[p..]);
    BeyondFirst(Joined(blocks[..p]), Filled(sizes[1..], blocks[p..]));
    BeyondFirst(Joined(blocks[..p]), []);
    NothingIsWritten();
    if WrittenBeyond(written, 0) {
      assert |Joined(own[..p])| == sizes[0] && p < q && blocks[p..][0] == own[p];
      assert SpillsOver(sizes, fileReads, 0, q);
    }
    if SpillsOver(sizes, fileReads, 0, q) {
      var p' :| 0 <= p' < |own| && |Joined(own[..p'])| == sizes[0] && TakesBlock(sizes[0 + 1..], |own[p']|) && p' < q;
      assert blocks[..p'] == own[..p'];
      FitExact(blocks, sizes[0], p');
      assert blocks[p..][0] == own[p'];
    }
  }

  lemma NothingIsWritten()
    ensures !AnyWritten([])
  {
  }

  lemma FilledUnfolds(sizes: seq<nat>, blocks: seq<ReadBlock>)
    requires sizes != []
    ensures var p := Fit(blocks, sizes[0]);
            var data := Joined(blocks[..p]);
            Filled(sizes, blocks) ==
            [data] + if |data| == sizes[0] then Filled(sizes[1..], blocks[p..]) else []
  {
    hide Fit, Joined;
  }

  /**
   A run that breaks off at file `j`, of whose blocks the first `q` arrive: files up to it hold a beginning of their
   own bytes, and whatever it and later files hold is, put together, a beginning of its bytes. A later file gets any
   exactly when some of the blocks that arrive fill file `j` exactly, another one arrives, and the next file that
   wants bytes has room for it.
   */
  lemma {:induction false} SurplusLandsElsewhereIff(sizes: seq<nat>, fileReads: seq<seq<ReadBlock>>, j: nat, q: nat)
    requires FailsAt(sizes, fileReads, j) && q <= |SentBlocks(sizes, fileReads)|
    ensures var written := Filled(sizes, SentBlocks(sizes, fileReads)[..q]);
            HoldOwn(fileReads, j, written) && (WrittenBeyond(written, j) <==> SpillsOver(sizes, fileReads, j, q))
    decreases j
  {
    if j == 0 {
      ChangedFile(sizes, fileReads, q);
    } else {
      hide *;
      FirstFileWhole(sizes, fileReads, j);
      var own, n, later := fileReads[0], |fileReads[0]|, SentBlocks(sizes[1..], fileReads[1..]);
      if n <= q {
        SurplusLandsElsewhereIff(sizes[1..], fileReads[1..], j - 1, q - n);
        assert (own + later)[..q] == own + later[..q - n];
        WholeFirst(sizes, own, later[..q - n]);
        OneFurther(sizes, fileReads, j, q, Filled(sizes[1..], later[..q - n]));
      } else {
        assert (own + later)[..q] == own[..q];
        CutFirst(sizes, fileReads, j, q);
      }
    }
  }

  lemma FirstFileWhole(sizes: seq<nat>, fileReads: seq<seq<ReadBlock>>, j: nat)
    requires FailsAt(sizes, fileReads, j) && 0 < j
    ensures sizes != [] && fileReads != [] && |Joined(fileReads[0])| == sizes[0]
    ensures FailsAt(sizes[1..], fileReads[1..], j - 1)
    ensures SentBlocks(sizes, fileReads) == fileReads[0] + SentBlocks(sizes[1..], fileReads[1..])
  {
    hide Joined, SentBlocks;
    forall i | 0 <= i < j - 1
      ensures |Joined(fileReads[1..][i])| == sizes[1..][i]
    {
      assert |Joined(fileReads[i + 1])| == sizes[i + 1];
    }
    assert |Joined(fileReads[0])| == sizes[0];
    SentUnfolds(sizes, fileReads);
  }

  lemma SentUnfolds(sizes: seq<nat>, fileReads: seq<seq<ReadBlock>>)
    requires sizes != [] && fileReads != [] && |Joined(fileReads[0])| == sizes[0]
    ensures SentBlocks(sizes, fileReads) == fileReads[0] + SentBlocks(sizes[1..], fileReads[1..])
  {
    hide Joined;
  }

  /** A file whose blocks all arrive gets them all, and the rest goes on to the next. */
  lemma WholeFirst(sizes: seq<nat>, own: seq<ReadBlock>, rest: seq<ReadBlock>)
    requires sizes != [] && |Joined(own)| == sizes[0]
    ensures Filled(sizes, own + rest) == [Joined(own)] + Filled(sizes[1..], rest)
  {
    hide Joined, Fit, Filled;
    assert (own + rest)[..|own|] == own && (own + rest)[|own|..] == rest;
    FitExact(own + rest, sizes[0], |own|);
    FilledUnfolds(sizes, own + rest);
  }

  lemma CutFirst(sizes: seq<nat>, fileReads: seq<seq<ReadBlock>>, j: nat, q: nat)
    requires FailsAt(sizes, fileReads, j) && 0 < j && fileReads != [] && q < |fileReads[0]|
    ensures var written := Filled(sizes, fileReads[0][..q]);
            HoldOwn(fileReads, j, written) && !WrittenBeyond(written, j) && !SpillsOver(sizes, fileReads, j, q)
  {
    hide Fit, Filled, Joined, TakesBlock;
    var own, blocks := fileReads[0], fileReads[0][..q];
    assert own[..|own|] == own;
    JoinedPrefix(own, q, |own|);
    assert |Joined(own)| == sizes[0];
    FitAll(blocks, sizes[0]);
    FilledUnfolds(sizes, blocks);
    assert blocks[..q] == blocks;
    var written := Filled(sizes, blocks);
    assert written == [Joined(blocks)];
    assert j == 1 ==> written[1..] == [];
    if j < |fileReads| {
      BlocksBeforeFirst(fileReads, j);
    }
  }

  lemma BlocksBeforeFirst(fileReads: seq<seq<ReadBlock>>, j: nat)
    requires 0 < j <= |fileReads|
    ensures BlocksBefore(fileReads, j) == |fileReads[0]| + BlocksBefore(fileReads[1..], j - 1)
  {
  }

  lemma OneFurther(sizes: seq<nat>, fileReads: seq<seq<ReadBlock>>, j: nat, q: nat, later: seq<seq<Byte>>)
    requires FailsAt(sizes, fileReads, j) && 0 < j && fileReads != [] && |fileReads[0]| <= q
    requires HoldOwn(fileReads[1..], j - 1, later)
    ensures HoldOwn(fileReads, j, [Joined(fileReads[0])] + later)
    ensures WrittenBeyond([Joined(fileReads[0])] + later, j) <==> WrittenBeyond(later, j - 1)
    ensures SpillsOver(sizes, fileReads, j, q) <==> SpillsOver(sizes[1..], fileReads[1..], j - 1, q - |fileReads[0]|)
  {
    hide Joined, TakesBlock, BlocksBefore, Flatten;
    var written := [Joined(fileReads[0])] + later;
    assert forall k | 0 <= k < |later| :: written[k + 1] == later[k];
    assert j <= |written| ==> written[j..] == later[j - 1..];
    forall k | 0 <= k <= j && k < |written|
      ensures written[k] <= OwnBytes(fileReads, k)
    {
      if k > 0 {
        assert later[k - 1] <= OwnBytes(fileReads[1..], k - 1);
      }
    }
    assert sizes[1..][j..] == sizes[j + 1..] && sizes[1..][j - 1] == sizes[j];
    BlocksBeforeFirst(fileReads, j);
    if j < |fileReads| {
      assert fileReads[1..][j - 1] == fileReads[j];
    }
  }

  // ---------------------------------------------------------------------
  // One block read as something else
  // ---------------------------------------------------------------------

  /** The same reads, but for the block at position `n` of the whole run. */
  function Replaced(fileReads: seq<seq<ReadBlock>>, n: nat, block: ReadBlock): seq<seq<ReadBlock>> {
    if fileReads == [] then []
    else if n < |fileReads[0]| then [fileReads[0][n := block]] + fileReads[1..]
    else [fileReads[0]] + Replaced(fileReads[1..], n - |fileReads[0]|, block)
  }

  ghost predicate SameLengths(a: seq<seq<ReadBlock>>, b: seq<seq<ReadBlock>>) {
    |a| == |b| && forall i | 0 <= i < |a| :: |a[i]| == |b[i]| && forall k | 0 <= k < |a[i]| :: |a[i][k]| == |b[i][k]|
  }

  lemma {:induction false} JoinedLength(a: seq<ReadBlock>, b: seq<ReadBlock>)
    requires |a| == |b| && forall k | 0 <= k < |a| :: |a[k]| == |b[k]|
    ensures |Joined(a)| == |Joined(b)|
  {
    if a != [] {
      JoinedLength(a[1..], b[1..]);
    }
  }

  /** What is sent is the same but for that block, as long as the block keeps its length. */
  lemma {:induction false} ReplacedSends(sizes: seq<nat>, fileReads: seq<seq<ReadBlock>>, n: nat, block: ReadBlock)
    requires n < |SentBlocks(sizes, fileReads)| && |block| == |SentBlocks(sizes, fileReads)[n]|
    ensures SameLengths(fileReads, Replaced(fileReads, n, block))
    ensures SentBlocks(sizes, Replaced(fileReads, n, block)) == SentBlocks(sizes, fileReads)[n := block]
    decreases |fileReads|
  {
    hide Joined;
    var own, changed := fileReads[0], Replaced(fileReads, n, block);
    if n < |own| {
      JoinedLength(own, own[n := block]);
      assert changed[1..] == fileReads[1..];
      if |Joined(own)| == sizes[0] {
        assert own[n := block] + SentBlocks(sizes[1..], fileReads[1..]) == SentBlocks(sizes, fileReads)[n := block];
      }
    } else {
      ReplacedSends(sizes[1..], fileReads[1..], n - |own|, block);
      assert changed[1..] == Replaced(fileReads[1..], n - |own|, block);
      forall i | 0 <= i < |fileReads|
        ensures |fileReads[i]| == |changed[i]| && forall k | 0 <= k < |fileReads[i]| :: |fileReads[i][k]| == |changed[i][k]|
      {
        if i > 0 {
          assert changed[i] == changed[1..][i - 1] && fileReads[i] == fileReads[1..][i - 1];
        }
      }
    }
  }

  lemma {:induction false} SameBefore(a: seq<seq<ReadBlock>>, b: seq<seq<ReadBlock>>, j: nat)
    requires SameLengths(a, b) && j <= |a|
    ensures BlocksBefore(a, j) == BlocksBefore(b, j)
    decreases j
  {
    if j > 0 {
      SameBefore(a[1..], b[1..], j - 1);
    }
  }

  /** Where a run fails and whether it spills over depends on the lengths alone. */
  lemma LengthsDecide(sizes: seq<nat>, a: seq<seq<ReadBlock>>, b: seq<seq<ReadBlock>>, j: nat, q: nat)
    requires SameLengths(a, b) && FailsAt(sizes, a, j)
    ensures FailsAt(sizes, b, j)
    ensures SpillsOver(sizes, a, j, q) <==> SpillsOver(sizes, b, j, q)
  {
    hide Joined, TakesBlock;
    forall i | 0 <= i < |a|
      ensures |Joined(a[i])| == |Joined(b[i])|
    {
      JoinedLength(a[i], b[i]);
    }
    SameBefore(a, b, j);
    if j < |a| {
      forall p | 0 <= p < |a[j]|
        ensures |Joined(a[j][..p])| == |Joined(b[j][..p])| && |a[j][p]| == |b[j][p]|
      {
        JoinedLength(a[j][..p], b[j][..p]);
      }
    }
  }

  /** A run breaks off exactly when some file is the first to be missing or changed. */
  lemma {:induction false} BreaksOffIff(rid: U32, sizes: seq<nat>, fileReads: seq<seq<ReadBlock>>)
    ensures StreamFiles(rid, sizes, fileReads).result.Err? <==> exists j :: FailsAt(sizes, fileReads, j)
  {
    StreamSucceedsIffUnchanged(rid, sizes, fileReads);
    hide StreamFiles, Joined;
    if !SizesKept(sizes, fileReads) {
      var j := FirstFailure(sizes, fileReads, 0);
    }
    if j :| FailsAt(sizes, fileReads, j) {
      assert !SizesKept(sizes, fileReads);
    }
  }

  lemma {:induction false} FirstFailure(sizes: seq<nat>, fileReads: seq<seq<ReadBlock>>, i: nat) returns (j: nat)
    requires !SizesKept(sizes, fileReads) && i <= |sizes| && i <= |fileReads|
    requires forall k | 0 <= k < i :: |Joined(fileReads[k])| == sizes[k]
    ensures FailsAt(sizes, fileReads, j)
    decreases |sizes| - i
  {
    hide Joined;
    j := i;
    if i < |fileReads| && i < |sizes| && |Joined(fileReads[i])| == sizes[i] {
      j := FirstFailure(sizes, fileReads, i + 1);
    }
  }
}
