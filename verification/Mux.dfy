/**
 The output multiplexer of streamed commands and pipe shells: the daemon relays
 a child's stdout and stderr and then its exit status, in whatever order the
 three become ready.
 */
module Mux {
  import opened Base
  import opened Frames

  datatype Channel = ChildOut | ChildErr

  /** An exit status as it travels: 32 bits, signed. */
  type Status = x: int | -0x8000_0000 <= x < 0x8000_0000

  datatype Reply = ShellStarted | ShellExit(status: Status) | ExecResult(status: Status) | ErrorReply

  /** What the daemon sends: a chunk of output, or a response. */
  datatype Sent = Chunk(channel: Channel, eof: bool, payload: seq<Byte>) | Respond(reply: Reply)

  /** What one pass of the select finds ready. */
  datatype Step =
    | Read(channel: Channel, chunk: seq<Byte>)
    | Reap(code: Option<Status>)
    | StdinTaskEnded
    | StdinFailed

  /** A pipe from the child: what it will still write, and whether the loop still reads it. */
  datatype Pipe = Pipe(rest: seq<Byte>, reading: bool)

  datatype Server = Server(shell: bool, out: Pipe, err: Pipe, exit: Option<Status>, sent: seq<Sent>, ended: bool)

  function PipeOf(s: Server, channel: Channel): Pipe {
    match channel case ChildOut => s.out case ChildErr => s.err
  }

  predicate Looping(s: Server) {
    s.out.reading || s.err.reading || s.exit.None?
  }

  /** A read returns the next bytes, up to a buffer's worth, and nothing only once the child is done writing. */
  predicate Enabled(s: Server, step: Step) {
    !s.ended && Looping(s) &&
    match step
    case Read(channel, chunk) =>
      PipeOf(s, channel).reading && |chunk| <= DEFAULT_STREAM_CHUNK_SIZE && chunk <= PipeOf(s, channel).rest &&
      (chunk == [] ==> PipeOf(s, channel).rest == [])
    case Reap(_) => s.exit.None?
    case StdinTaskEnded => s.shell
    case StdinFailed => s.shell
  }

  /** -1 for a child killed by a signal. */
  function ExitCode(code: Option<Status>): Status {
    match code case Some(n) => n case None => -1
  }

  function Farewell(s: Server): Reply
    requires s.exit.Some?
  {
    if s.shell then ShellExit(s.exit.value) else ExecResult(s.exit.value)
  }

  /** Once nothing is left to wait for, the exit status is reported. */
  function Finished(s: Server): Server {
    if s.ended || Looping(s) then s else s.(sent := s.sent + [Respond(Farewell(s))], ended := true)
  }

  function Take(s: Server, step: Step): Server
    requires Enabled(s, step)
  {
    match step
    case Read(channel, chunk) =>
      var pipe := if chunk == [] then Pipe([], false) else Pipe(PipeOf(s, channel).rest[|chunk|..], true);
      var sent := s.sent + [Chunk(channel, chunk == [], chunk)];
      (match channel case ChildOut => s.(out := pipe, sent := sent) case ChildErr => s.(err := pipe, sent := sent))
    case Reap(code) => s.(exit := Some(ExitCode(code)))
    case StdinTaskEnded => s
    case StdinFailed => s.(sent := s.sent + [Respond(ErrorReply)], ended := true)
  }

  /** A child that will write `stdout` and `stderr`; a shell is announced first. */
  function Start(shell: bool, stdout: seq<Byte>, stderr: seq<Byte>): Server {
    Server(shell, Pipe(stdout, true), Pipe(stderr, true), None, if shell then [Respond(ShellStarted)] else [], false)
  }

  ghost predicate Possible(s: Server, steps: seq<Step>)
    decreases |steps|
  {
    steps == [] || (Enabled(s, steps[0]) && Possible(Take(s, steps[0]), steps[1..]))
  }

  lemma OnlyWhileLooping(s: Server, steps: seq<Step>)
    requires Possible(s, steps)
    ensures steps != [] ==> Looping(s) && !s.ended
  {
  }

  function Run(s: Server, steps: seq<Step>): Server
    requires Possible(s, steps)
    decreases |steps|
  {
    if steps == [] then s else Run(Take(s, steps[0]), steps[1..])
  }

  // ---------------------------------------------------------------------
  // What has been sent on a channel
  // ---------------------------------------------------------------------

  predicate On(x: Sent, channel: Channel) {
    x.Chunk? && x.channel == channel
  }

  /** The payloads on a channel, put together. */
  function Relayed(sent: seq<Sent>, channel: Channel): seq<Byte> {
    if sent == [] then []
    else
      var last := |sent| - 1;
      Relayed(sent[..last], channel) + if On(sent[last], channel) then sent[last].payload else []
  }

  function EofCount(sent: seq<Sent>, channel: Channel): nat {
    if sent == [] then 0
    else
      var last := |sent| - 1;
      EofCount(sent[..last], channel) + if On(sent[last], channel) && sent[last].eof then 1 else 0
  }

  ghost predicate NothingAfterEof(sent: seq<Sent>, channel: Channel) {
    forall i, j | 0 <= i < j < |sent| && On(sent[i], channel) && sent[i].eof :: !On(sent[j], channel)
  }

  predicate Terminates(x: Sent) {
    x.Respond? && !x.reply.ShellStarted?
  }

  ghost predicate NoneTerminates(sent: seq<Sent>) {
    forall i | 0 <= i < |sent| :: !Terminates(sent[i])
  }

  ghost predicate AnnouncedFirst(shell: bool, sent: seq<Sent>) {
    (shell ==> sent != [] && sent[0] == Respond(ShellStarted)) &&
    forall i | 0 <= i < |sent| && (shell ==> i > 0) :: sent[i] != Respond(ShellStarted)
  }

  lemma SendOne(sent: seq<Sent>, x: Sent, channel: Channel)
    ensures Relayed(sent + [x], channel) == Relayed(sent, channel) + if On(x, channel) then x.payload else []
    ensures EofCount(sent + [x], channel) == EofCount(sent, channel) + if On(x, channel) && x.eof then 1 else 0
    ensures NothingAfterEof(sent, channel) && (On(x, channel) ==> EofCount(sent, channel) == 0) ==>
              NothingAfterEof(sent + [x], channel)
  {
    assert (sent + [x])[..|sent + [x]| - 1] == sent;
    if On(x, channel) && EofCount(sent, channel) == 0 {
      NoEofMeans(sent, channel);
    }
  }

  lemma {:induction false} NoEofMeans(sent: seq<Sent>, channel: Channel)
    requires EofCount(sent, channel) == 0
    ensures forall i | 0 <= i < |sent| && On(sent[i], channel) :: !sent[i].eof
  {
    if sent != [] {
      NoEofMeans(sent[..|sent| - 1], channel);
    }
  }

  // ---------------------------------------------------------------------
  // The invariant
  // ---------------------------------------------------------------------

  /** One channel: what was relayed and what is to come is all the child writes; EOF comes once, at the end. */
  ghost predicate ChannelInv(s: Server, channel: Channel, all: seq<Byte>) {
    var pipe := PipeOf(s, channel);
    Relayed(s.sent, channel) + pipe.rest == all && NothingAfterEof(s.sent, channel) &&
    EofCount(s.sent, channel) == (if pipe.reading then 0 else 1) && (!pipe.reading ==> pipe.rest == [])
  }

  /** How the sequence of responses stands. */
  ghost predicate ResponseInv(s: Server) {
    AnnouncedFirst(s.shell, s.sent) &&
    if s.ended then
      s.sent != [] && NoneTerminates(s.sent[..|s.sent| - 1]) &&
      ((s.sent[|s.sent| - 1] == Respond(ErrorReply) && s.shell) ||
       (!Looping(s) && s.sent[|s.sent| - 1] == Respond(Farewell(s))))
    else NoneTerminates(s.sent)
  }

  ghost predicate Inv(s: Server, stdout: seq<Byte>, stderr: seq<Byte>) {
    ChannelInv(s, ChildOut, stdout) && ChannelInv(s, ChildErr, stderr) && ResponseInv(s)
  }

  lemma StartInv(shell: bool, stdout: seq<Byte>, stderr: seq<Byte>)
    ensures Inv(Start(shell, stdout, stderr), stdout, stderr)
  {
    var s := Start(shell, stdout, stderr);
    if shell {
      SendOne([], Respond(ShellStarted), ChildOut);
      SendOne([], Respond(ShellStarted), ChildErr);
      assert [] + [Respond(ShellStarted)] == s.sent;
    }
  }

  /** Reporting the exit status keeps it, too. */
  lemma FinishedKeepsInv(s: Server, stdout: seq<Byte>, stderr: seq<Byte>)
    requires Inv(s, stdout, stderr)
    ensures Inv(Finished(s), stdout, stderr)
  {
    if !s.ended && !Looping(s) {
      SendOne(s.sent, Respond(Farewell(s)), ChildOut);
      SendOne(s.sent, Respond(Farewell(s)), ChildErr);
      var sent := Finished(s).sent;
      assert sent[..|sent| - 1] == s.sent;
    }
  }

  /** Every step of the loop keeps the invariant. */
  lemma TakeKeepsInv(s: Server, step: Step, stdout: seq<Byte>, stderr: seq<Byte>)
    requires Inv(s, stdout, stderr) && Enabled(s, step)
    ensures Inv(Take(s, step), stdout, stderr)
  {
    match step
    case Read(channel, chunk) => ReadKeepsInv(s, channel, chunk, stdout, stderr);
    case Reap(code) =>
    case StdinTaskEnded =>
    case StdinFailed =>
      SendOne(s.sent, Respond(ErrorReply), ChildOut);
      SendOne(s.sent, Respond(ErrorReply), ChildErr);
      var sent := Take(s, step).sent;
      assert sent[..|sent| - 1] == s.sent;
  }

  lemma ReadKeepsInv(s: Server, channel: Channel, chunk: seq<Byte>, stdout: seq<Byte>, stderr: seq<Byte>)
    requires Inv(s, stdout, stderr) && Enabled(s, Read(channel, chunk))
    ensures Inv(Take(s, Read(channel, chunk)), stdout, stderr)
  {
    hide ChannelInv;
    ReadKeepsChannel(s, channel, chunk, ChildOut, stdout);
    ReadKeepsChannel(s, channel, chunk, ChildErr, stderr);
  }

  lemma ReadKeepsChannel(s: Server, channel: Channel, chunk: seq<Byte>, other: Channel, all: seq<Byte>)
    requires Enabled(s, Read(channel, chunk)) && ChannelInv(s, other, all)
    ensures ChannelInv(Take(s, Read(channel, chunk)), other, all)
  {
    hide Relayed, EofCount, NothingAfterEof;
    var next := Take(s, Read(channel, chunk));
    SendOne(s.sent, Chunk(channel, chunk == [], chunk), other);
    if channel == other {
      var rest := PipeOf(s, channel).rest;
      assert chunk + PipeOf(next, channel).rest == rest;
      Associate(Relayed(s.sent, channel), chunk, PipeOf(next, channel).rest);
    } else {
      assert PipeOf(next, other) == PipeOf(s, other);
      assert Relayed(s.sent, other) + [] == Relayed(s.sent, other);
    }
  }

  lemma {:induction false} RunKeepsInv(s: Server, steps: seq<Step>, stdout: seq<Byte>, stderr: seq<Byte>)
    requires Inv(s, stdout, stderr) && Possible(s, steps)
    ensures Inv(Run(s, steps), stdout, stderr)
    decreases |steps|
  {
    if steps != [] {
      TakeKeepsInv(s, steps[0], stdout, stderr);
      RunKeepsInv(Take(s, steps[0]), steps[1..], stdout, stderr);
    }
  }

  /** A whole, error-free session: every byte of both channels, one EOF each and nothing after it, one terminator last. */
  ghost predicate WholeSession(shell: bool, sent: seq<Sent>, stdout: seq<Byte>, stderr: seq<Byte>, status: Status) {
    Relayed(sent, ChildOut) == stdout && Relayed(sent, ChildErr) == stderr &&
    EofCount(sent, ChildOut) == EofCount(sent, ChildErr) == 1 &&
    NothingAfterEof(sent, ChildOut) && NothingAfterEof(sent, ChildErr) && AnnouncedFirst(shell, sent) &&
    sent != [] && NoneTerminates(sent[..|sent| - 1]) &&
    sent[|sent| - 1] == Respond(if shell then ShellExit(status) else ExecResult(status))
  }

  /** The whole session: the loop, then the report. */
  function Session(shell: bool, stdout: seq<Byte>, stderr: seq<Byte>, steps: seq<Step>): Server
    requires Possible(Start(shell, stdout, stderr), steps)
  {
    Finished(Run(Start(shell, stdout, stderr), steps))
  }

  /** The child was reaped exactly once, and `status` is its exit code, or -1 if a signal killed it. */
  ghost predicate ReapedOnce(steps: seq<Step>, status: Status) {
    exists i | 0 <= i < |steps| ::
      (steps[i] == Reap(Some(status)) || (steps[i] == Reap(None) && status == -1)) &&
      forall j | 0 <= j < |steps| && j != i :: !steps[j].Reap?
  }

  /**
   The multiplexer over every interleaving: at any time what was relayed of each channel is a prefix of what the
   child writes, in order; a session ends either with an error response to a broken stdin, or whole, with the status
   of the one reaping: the child's exit code, or -1 if it was killed by a signal.
   */
  lemma EveryInterleaving(shell: bool, stdout: seq<Byte>, stderr: seq<Byte>, steps: seq<Step>)
    requires Possible(Start(shell, stdout, stderr), steps)
    ensures var s := Session(shell, stdout, stderr, steps);
            Relayed(s.sent, ChildOut) <= stdout && Relayed(s.sent, ChildErr) <= stderr &&
            NothingAfterEof(s.sent, ChildOut) && NothingAfterEof(s.sent, ChildErr) && AnnouncedFirst(shell, s.sent) &&
            (!s.ended ==> NoneTerminates(s.sent)) &&
            (s.ended && StdinFailed in steps ==> s.sent != [] && s.sent[|s.sent| - 1] == Respond(ErrorReply)) &&
            (s.ended && StdinFailed !in steps ==>
               s.exit.Some? && WholeSession(shell, s.sent, stdout, stderr, s.exit.value) &&
               ReapedOnce(steps, s.exit.value))
  {
    hide Inv;
    var s := Run(Start(shell, stdout, stderr), steps);
    StartInv(shell, stdout, stderr);
    RunKeepsInv(Start(shell, stdout, stderr), steps, stdout, stderr);
    FinishedKeepsInv(s, stdout, stderr);
    RunEndsOnlyByFailure(Start(shell, stdout, stderr), steps);
    InvMeans(Finished(s), stdout, stderr);
  }

  lemma InvMeans(s: Server, stdout: seq<Byte>, stderr: seq<Byte>)
    requires Inv(s, stdout, stderr)
    ensures Relayed(s.sent, ChildOut) <= stdout && Relayed(s.sent, ChildErr) <= stderr
    ensures NothingAfterEof(s.sent, ChildOut) && NothingAfterEof(s.sent, ChildErr) && AnnouncedFirst(s.shell, s.sent)
    ensures !s.ended ==> NoneTerminates(s.sent)
    ensures s.ended && s.sent != [] && s.sent[|s.sent| - 1] != Respond(ErrorReply) ==>
              s.exit.Some? && WholeSession(s.shell, s.sent, stdout, stderr, s.exit.value)
    ensures s.ended ==> s.sent != []
  {
  }

  /** The loop itself ends a session only when stdin failed, and reaps the child at most once. */
  lemma {:induction false} RunEndsOnlyByFailure(s: Server, steps: seq<Step>)
    requires Possible(s, steps) && !s.ended
    ensures var last := Run(s, steps);
            last.shell == s.shell && (last.ended <==> StdinFailed in steps) &&
            (last.ended ==> last.sent != [] && last.sent[|last.sent| - 1] == Respond(ErrorReply)) &&
            match s.exit
            case Some(_) => last.exit == s.exit && forall j | 0 <= j < |steps| :: !steps[j].Reap?
            case None => last.exit.Some? ==> ReapedOnce(steps, last.exit.value)
    decreases |steps|
  {
    if steps != [] {
      var next, later := Take(s, steps[0]), steps[1..];
      assert steps == [steps[0]] + later;
      if next.ended {
        OnlyWhileLooping(next, later);
      } else {
        RunEndsOnlyByFailure(next, later);
        var last := Run(next, later);
        if s.exit.None? && last.exit.Some? {
          if steps[0].Reap? {
            assert forall j | 0 < j < |steps| :: steps[j] == later[j - 1];
          } else {
            ReapedLater(steps, last.exit.value);
          }
        }
      }
    }
  }

  lemma ReapedLater(steps: seq<Step>, status: Status)
    requires steps != [] && !steps[0].Reap? && ReapedOnce(steps[1..], status)
    ensures ReapedOnce(steps, status)
  {
    var later := steps[1..];
    var i :| 0 <= i < |later| && (later[i] == Reap(Some(status)) || (later[i] == Reap(None) && status == -1)) &&
      forall j | 0 <= j < |later| && j != i :: !later[j].Reap?;
    assert steps[i + 1] == later[i];
    assert forall j | 0 < j < |steps| :: steps[j] == later[j - 1];
  }

  // ---------------------------------------------------------------------
  // The loop itself
  // ---------------------------------------------------------------------

  datatype ReplyCodec = ReplyCodec(encode: Reply -> seq<Byte>, decode: seq<Byte> -> Option<Reply>)

  ghost predicate SmallReplies(c: ReplyCodec) {
    forall m: Reply :: |c.encode(m)| <= MAX_PAYLOAD_LEN
  }

  function WireChannel(channel: Channel): StreamChannel {
    match channel case ChildOut => Stdout case ChildErr => Stderr
  }

  predicate CanSend(c: ReplyCodec, x: Sent) {
    match x
    case Chunk(_, _, payload) => |payload| <= MAX_PAYLOAD_LEN
    case Respond(m) => |c.encode(m)| <= MAX_PAYLOAD_LEN
  }

  function FrameOf(c: ReplyCodec, rid: U32, x: Sent): (f: Frame)
    requires CanSend(c, x)
    ensures Sendable(f)
  {
    match x
    case Chunk(channel, eof, payload) => StreamFrame(rid, WireChannel(channel), eof, payload)
    case Respond(m) => ControlFrame(Response, rid, c.encode(m))
  }

  function FramesOf(c: ReplyCodec, rid: U32, sent: seq<Sent>): (fs: seq<Frame>)
    requires forall x | x in sent :: CanSend(c, x)
    ensures |fs| == |sent| && forall i | 0 <= i < |sent| :: fs[i] == FrameOf(c, rid, sent[i])
    decreases |sent|
  {
    if sent == [] then [] else [FrameOf(c, rid, sent[0])] + FramesOf(c, rid, sent[1..])
  }

  ghost predicate AllCanSend(c: ReplyCodec, sent: seq<Sent>) {
    forall x | x in sent :: CanSend(c, x)
  }

  /** What has gone out is the wire form of what the state says was sent. */
  ghost predicate OnWire(c: ReplyCodec, rid: U32, start: seq<Byte>, output: seq<Byte>, sent: seq<Sent>) {
    AllCanSend(c, sent) && output == start + Wire(FramesOf(c, rid, sent))
  }

  lemma OneMoreOnWire(c: ReplyCodec, rid: U32, start: seq<Byte>, output: seq<Byte>, sent: seq<Sent>, x: Sent)
    requires OnWire(c, rid, start, output, sent) && CanSend(c, x)
    ensures OnWire(c, rid, start, output + EncodeFrame(FrameOf(c, rid, x)), sent + [x])
  {
    hide EncodeFrame, FrameOf, CanSend;
    assert forall y | y in sent + [x] :: y in sent || y == x;
    assert FramesOf(c, rid, sent + [x]) == FramesOf(c, rid, sent) + [FrameOf(c, rid, x)];
    WireAppend(FramesOf(c, rid, sent), [FrameOf(c, rid, x)]);
    WireOne(FrameOf(c, rid, x));
    Associate(start, Wire(FramesOf(c, rid, sent)), EncodeFrame(FrameOf(c, rid, x)));
  }

  lemma ReplyFrame(c: ReplyCodec, rid: U32, m: Reply)
    requires CanSend(c, Respond(m))
    ensures FrameOf(c, rid, Respond(m)) == ControlFrame(Response, rid, c.encode(m))
  {
  }

  lemma ChunkFrame(c: ReplyCodec, rid: U32, channel: Channel, eof: bool, payload: seq<Byte>)
    requires |payload| <= MAX_PAYLOAD_LEN
    ensures CanSend(c, Chunk(channel, eof, payload))
    ensures FrameOf(c, rid, Chunk(channel, eof, payload)) == StreamFrame(rid, WireChannel(channel), eof, payload)
  {
  }

  method SendReply(writer: Writer, c: ReplyCodec, rid: U32, m: Reply, ghost start: seq<Byte>, ghost sent: seq<Sent>)
    requires SmallReplies(c) && writer.buffer == [] && OnWire(c, rid, start, writer.output, sent)
    modifies writer`output, writer`buffer
    ensures writer.buffer == [] && OnWire(c, rid, start, writer.output, sent + [Respond(m)])
  {
    hide OnWire, EncodeFrame, EncodeHeader, FrameOf, ControlFrame, CutAtWrites;
    OneMoreOnWire(c, rid, start, writer.output, sent, Respond(m));
    ReplyFrame(c, rid, m);
    assert writer.All() == writer.output;
    var _ := WriteFrame(writer, Response, rid, c.encode(m));
    writer.Flush();
  }

  method SendChunk(writer: Writer, c: ReplyCodec, rid: U32, channel: Channel, eof: bool, payload: seq<Byte>,
                   ghost start: seq<Byte>, ghost sent: seq<Sent>)
    requires |payload| <= MAX_PAYLOAD_LEN && writer.buffer == [] && OnWire(c, rid, start, writer.output, sent)
    modifies writer`output, writer`buffer
    ensures writer.buffer == [] && OnWire(c, rid, start, writer.output, sent + [Chunk(channel, eof, payload)])
  {
    hide OnWire, EncodeFrame, EncodeHeader, FrameOf, StreamFrame, CutAtWrites;
    ChunkFrame(c, rid, channel, eof, payload);
    OneMoreOnWire(c, rid, start, writer.output, sent, Chunk(channel, eof, payload));
    assert writer.All() == writer.output;
    var _ := WriteStreamFrame(writer, rid, WireChannel(channel), eof, payload);
    writer.Flush();
  }

  /** The loop's own variables agree with the state, from which the remaining steps lead to the end of the run. */
  ghost predicate Relaying(s: Server, last: Server, steps: seq<Step>, i: nat,
                           shell: bool, stdoutOpen: bool, stderrOpen: bool, exitStatus: Option<Status>)
  {
    i <= |steps| && !s.ended && s.shell == shell && s.out.reading == stdoutOpen && s.err.reading == stderrOpen &&
    s.exit == exitStatus && Possible(s, steps[i..]) && Run(s, steps[i..]) == last
  }

  lemma NextStep(s: Server, last: Server, steps: seq<Step>, i: nat,
                 shell: bool, stdoutOpen: bool, stderrOpen: bool, exitStatus: Option<Status>)
    requires Relaying(s, last, steps, i, shell, stdoutOpen, stderrOpen, exitStatus) && i < |steps|
    ensures Enabled(s, steps[i]) && (stdoutOpen || stderrOpen || exitStatus.None?)
    ensures var next := Take(s, steps[i]);
            match steps[i]
            case Read(channel, chunk) =>
              |chunk| <= MAX_PAYLOAD_LEN && next.sent == s.sent + [Chunk(channel, chunk == [], chunk)] &&
              Relaying(next, last, steps, i + 1, shell, if channel == ChildOut then chunk != [] else stdoutOpen,
                       if channel == ChildErr then chunk != [] else stderrOpen, exitStatus)
            case Reap(code) =>
              next.sent == s.sent && Relaying(next, last, steps, i + 1, shell, stdoutOpen, stderrOpen, Some(ExitCode(code)))
            case StdinTaskEnded =>
              next.sent == s.sent && Relaying(next, last, steps, i + 1, shell, stdoutOpen, stderrOpen, exitStatus)
            case StdinFailed => last.sent == s.sent + [Respond(ErrorReply)] && last.ended
  {
    assert steps[i..][1..] == steps[i + 1..];
    if steps[i] == StdinFailed {
      OnlyWhileLooping(Take(s, steps[i]), steps[i + 1..]);
    }
  }

  lemma LoopDone(s: Server, last: Server, steps: seq<Step>, i: nat,
                 shell: bool, stdoutOpen: bool, stderrOpen: bool, exitStatus: Option<Status>)
    requires Relaying(s, last, steps, i, shell, stdoutOpen, stderrOpen, exitStatus)
    requires i == |steps| || !(stdoutOpen || stderrOpen || exitStatus.None?)
    ensures last == s
    ensures if stdoutOpen || stderrOpen || exitStatus.None? then Finished(last) == s
            else
              Finished(last).ended &&
              Finished(last).sent == s.sent + [Respond(if shell then ShellExit(exitStatus.value) else ExecResult(exitStatus.value))]
  {
    OnlyWhileLooping(s, steps[i..]);
  }

  lemma RelayStarts(c: ReplyCodec, rid: U32, start: seq<Byte>, shell: bool, stdout: seq<Byte>, stderr: seq<Byte>, steps: seq<Step>)
    requires Possible(Start(shell, stdout, stderr), steps)
    ensures OnWire(c, rid, start, start, [])
    ensures var s := Start(shell, stdout, stderr);
            s.sent == (if shell then [] + [Respond(ShellStarted)] else []) &&
            Relaying(s, Run(s, steps), steps, 0, shell, true, true, None)
  {
    assert steps[0..] == steps;
    assert start + Wire([]) == start;
  }

  /**
   stream_command_output and handle_pipe_shell: relay until both channels are closed and the child is reaped, then
   report its status. `steps` is what the selects find ready; running out of it means still waiting.
   */
  method RelayOutput(writer: Writer, c: ReplyCodec, rid: U32, shell: bool, steps: seq<Step>,
                     ghost stdout: seq<Byte>, ghost stderr: seq<Byte>) returns (ended: bool)
    requires SmallReplies(c) && writer.buffer == [] && Possible(Start(shell, stdout, stderr), steps)
    modifies writer`output, writer`buffer
    ensures var s := Session(shell, stdout, stderr, steps);
            ended == s.ended && OnWire(c, rid, old(writer.output), writer.output, s.sent)
  {
    ghost var start, s := writer.output, Start(shell, stdout, stderr);
    ghost var last := Run(s, steps);
    assert Session(shell, stdout, stderr, steps) == Finished(last);
    RelayStarts(c, rid, start, shell, stdout, stderr, steps);
    hide *;
    if shell {
      SendReply(writer, c, rid, ShellStarted, start, []);
    }
    var stdoutOpen, stderrOpen, exitStatus: Option<Status> := true, true, None;
    var i := 0;
    while i < |steps| && (stdoutOpen || stderrOpen || exitStatus.None?)
      invariant writer.buffer == [] && Relaying(s, last, steps, i, shell, stdoutOpen, stderrOpen, exitStatus)
      invariant OnWire(c, rid, start, writer.output, s.sent)
      decreases |steps| - i
    {
      NextStep(s, last, steps, i, shell, stdoutOpen, stderrOpen, exitStatus);
      match steps[i] {
        case StdinTaskEnded =>
        case StdinFailed =>
          SendReply(writer, c, rid, ErrorReply, start, s.sent);
          FailureEnds(last);
          return true;
        case Reap(code) => exitStatus := Some(ExitCode(code));
        case Read(channel, chunk) =>
          SendChunk(writer, c, rid, channel, chunk == [], chunk, start, s.sent);
          if channel == ChildOut {
            stdoutOpen := chunk != [];
          } else {
            stderrOpen := chunk != [];
          }
      }
      s := Take(s, steps[i]);
      i := i + 1;
    }
    LoopDone(s, last, steps, i, shell, stdoutOpen, stderrOpen, exitStatus);
    if stdoutOpen || stderrOpen || exitStatus.None? {
      StillWaiting(s, last, steps, i, shell, stdoutOpen, stderrOpen, exitStatus);
      return false;
    }
    SendReply(writer, c, rid, if shell then ShellExit(exitStatus.value) else ExecResult(exitStatus.value), start, s.sent);
    ended := true;
  }

  lemma FailureEnds(last: Server)
    requires last.ended
    ensures Finished(last) == last
  {
  }

  lemma StillWaiting(s: Server, last: Server, steps: seq<Step>, i: nat,
                     shell: bool, stdoutOpen: bool, stderrOpen: bool, exitStatus: Option<Status>)
    requires Relaying(s, last, steps, i, shell, stdoutOpen, stderrOpen, exitStatus)
    ensures !s.ended
  {
  }
}
