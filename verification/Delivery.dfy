/** What is streamed for a list of files is what the receiver reads back, file by file. */
module Delivery {
  import opened Base
  import opened Frames
  import opened Receiver
  import opened Slices
  import opened Sender

  /** The contents of the first `n` files, each the concatenation of its reads. */
  function JoinedEach(fileReads: seq<seq<ReadBlock>>, n: nat): (contents: seq<seq<Byte>>)
    requires n <= |fileReads|
    ensures |contents| == n
    ensures forall i | 0 <= i < n :: contents[i] == Joined(fileReads[i])
  {
    if n == 0 then [] else JoinedEach(fileReads, n - 1) + [Joined(fileReads[n - 1])]
  }

  lemma JoinedEachStep(fileReads: seq<seq<ReadBlock>>, n: nat)
    requires 0 < n <= |fileReads|
    ensures JoinedEach(fileReads, n) == [Joined(fileReads[0])] + JoinedEach(fileReads[1..], n - 1)
  {
  }

  /** `part` is found in `frames` from position `at` on. */
  ghost predicate Occurs(frames: seq<Frame>, at: nat, part: seq<Frame>) {
    at + |part| <= |frames| && forall k | 0 <= k < |part| :: frames[at + k] == part[k]
  }

  lemma OccursSplit(frames: seq<Frame>, at: nat, a: seq<Frame>, b: seq<Frame>)
    requires Occurs(frames, at, a + b)
    ensures Occurs(frames, at, a) && Occurs(frames, at + |a|, b)
  {
    forall k | 0 <= k < |a|
      ensures frames[at + k] == a[k]
    {
      assert frames[at + k] == (a + b)[k];
    }
    forall k | 0 <= k < |b|
      ensures frames[at + |a| + k] == b[k]
    {
      assert frames[at + (|a| + k)] == (a + b)[|a| + k];
    }
  }

  lemma {:induction false} PayloadOfBlocks(rid: U32, blocks: seq<ReadBlock>, frames: seq<Frame>, at: nat)
    requires Occurs(frames, at, BlockFrames(rid, blocks))
    ensures Payload(frames, at, at + |blocks|) == Joined(blocks)
    decreases |blocks|
  {
    hide StreamFlags;
    if blocks != [] {
      var f := StreamFrame(rid, StreamChannel.File, false, blocks[0]);
      assert frames[at + 0] == BlockFrames(rid, blocks)[0] == f;
      OccursSplit(frames, at, [f], BlockFrames(rid, blocks[1..]));
      PayloadOfBlocks(rid, blocks[1..], frames, at + 1);
    }
  }

  lemma BlocksAreSegment(rid: U32, blocks: seq<ReadBlock>, frames: seq<Frame>, at: nat)
    requires Occurs(frames, at, BlockFrames(rid, blocks))
    ensures Segment(frames, rid, at, at + |blocks|, |Joined(blocks)|)
  {
    PayloadOfBlocks(rid, blocks, frames, at);
    hide StreamFlags, Receiver.Chunk, Payload;
    forall k | at <= k < at + |blocks|
      ensures Receiver.Chunk(frames[k], rid) == Ok(false) && frames[k].payload == blocks[k - at]
    {
      BlockThere(rid, blocks, frames, at, k - at);
    }
    if blocks != [] {
      JoinedPositive(blocks);
    }
  }

  lemma BlockThere(rid: U32, blocks: seq<ReadBlock>, frames: seq<Frame>, at: nat, i: nat)
    requires Occurs(frames, at, BlockFrames(rid, blocks)) && i < |blocks|
    ensures Receiver.Chunk(frames[at + i], rid) == Ok(false) && frames[at + i].payload == blocks[i]
  {
    hide StreamFlags, Receiver.Chunk;
    assert frames[at + i] == BlockFrames(rid, blocks)[i];
    BlockIsChunk(rid, blocks[i]);
  }

  lemma JoinedPositive(blocks: seq<ReadBlock>)
    requires blocks != []
    ensures |Joined(blocks)| > 0
  {
  }

  lemma FileIsRead(rid: U32, blocks: seq<ReadBlock>, inc: Incoming, at: nat)
    requires Occurs(inc.frames, at, BlockFrames(rid, blocks))
    ensures ReceiveData(inc, rid, at, |Joined(blocks)|) == Received(Joined(blocks), at + |BlockFrames(rid, blocks)|)
  {
    hide *;
    BlocksAreSegment(rid, blocks, inc.frames, at);
    PayloadOfBlocks(rid, blocks, inc.frames, at);
    OccursFits(inc.frames, at, BlockFrames(rid, blocks));
    DataIsSegment(inc, rid, at, |Joined(blocks)|, Joined(blocks), at + |blocks|);
  }

  lemma OccursFits(frames: seq<Frame>, at: nat, part: seq<Frame>)
    requires Occurs(frames, at, part)
    ensures at + |part| <= |frames|
  {
  }

  /** Streamed files, anywhere in an incoming stream, are read back with exactly the bytes that were streamed. */
  lemma {:induction false} StreamedIsRead(rid: U32, sizes: seq<nat>, fileReads: seq<seq<ReadBlock>>, inc: Incoming, at: nat)
    requires SizesKept(sizes, fileReads)
    requires Occurs(inc.frames, at, StreamFiles(rid, sizes, fileReads).frames)
    ensures at <= |inc.frames| && ReceiveContents(inc, rid, at, sizes) ==
            AllRead(JoinedEach(fileReads, |sizes|), at + |StreamFiles(rid, sizes, fileReads).frames|)
    decreases |sizes|
  {
    if sizes != [] {
      FirstFileStreamed(rid, sizes, fileReads);
      var here, later := BlockFrames(rid, fileReads[0]), StreamFiles(rid, sizes[1..], fileReads[1..]).frames;
      hide *;
      OccursSplit(inc.frames, at, here, later);
      FileIsRead(rid, fileReads[0], inc, at);
      StreamedIsRead(rid, sizes[1..], fileReads[1..], inc, at + |here|);
      ContentsStep(inc, rid, at, sizes, Joined(fileReads[0]), at + |here|,
                   JoinedEach(fileReads[1..], |sizes| - 1), at + |here| + |later|);
      JoinedEachStep(fileReads, |sizes|);
    }
  }

  lemma FirstFileStreamed(rid: U32, sizes: seq<nat>, fileReads: seq<seq<ReadBlock>>)
    requires SizesKept(sizes, fileReads) && sizes != []
    ensures |Joined(fileReads[0])| == sizes[0] && SizesKept(sizes[1..], fileReads[1..])
    ensures StreamFiles(rid, sizes, fileReads).frames ==
            BlockFrames(rid, fileReads[0]) + StreamFiles(rid, sizes[1..], fileReads[1..]).frames
  {
    hide Joined, BlockFrames;
    assert |Joined(fileReads[0])| == sizes[0];
    forall i | 0 <= i < |sizes[1..]|
      ensures |Joined(fileReads[1..][i])| == sizes[1..][i]
    {
      assert |Joined(fileReads[i + 1])| == sizes[i + 1];
    }
  }

  lemma ContentsStep(inc: Incoming, rid: U32, at: nat, sizes: seq<nat>, data: seq<Byte>, mid: nat,
                     contents: seq<seq<Byte>>, end: nat)
    requires at <= mid <= |inc.frames| && sizes != []
    requires ReceiveData(inc, rid, at, sizes[0]) == Received(data, mid)
    requires ReceiveContents(inc, rid, mid, sizes[1..]) == AllRead(contents, end)
    ensures ReceiveContents(inc, rid, at, sizes) == AllRead([data] + contents, end)
  {
  }
}
