/**
 The shell session as a whole: the daemon's multiplexer, the connection, and the
 client's reader task and main loop, stepping in any order.
 */
module ShellClient {
  import opened Base
  import opened Frames
  import opened Mux

  const QUEUE_CAPACITY := 4

  /** What the reader task hands to the main loop. */
  datatype Item = Got(frame: Frame) | Broken
  datatype Verdict = Exited(status: Status) | SessionFailed

  /** `taken` frames have been read; `reading` says whether the reader task still runs. */
  datatype Client = Client(
    started: bool, taken: nat, stdout: seq<Byte>, stderr: seq<Byte>, queue: seq<Item>, reading: bool, verdict: Option<Verdict>)

  datatype System = System(server: Server, client: Client)

  datatype Action = DaemonTakes(step: Step) | DaemonReports | ClientStarts | ReaderTakes | ReaderSeesEnd | MainTakes

  ghost predicate FaithfulReplies(c: ReplyCodec) {
    SmallReplies(c) && forall m: Reply :: c.decode(c.encode(m)) == Some(m)
  }

  /** The frames that can be read off the bytes the daemon has written. */
  function Arrived(c: ReplyCodec, s: System): seq<Frame>
    requires AllCanSend(c, s.server.sent)
  {
    ReadAll(Wire(FramesOf(c, REQUEST_ID, s.server.sent))).frames
  }

  // ---------------------------------------------------------------------
  // The client's two tasks
  // ---------------------------------------------------------------------

  function Hand(cl: Client, it: Item): Client {
    cl.(queue := cl.queue + [it])
  }

  /** The reader task gives up. */
  function Stop(cl: Client): Client {
    Hand(cl, Broken).(reading := false)
  }

  /** One frame through the reader task: output is written at once, everything else goes to the main loop. */
  function ReadOne(cl: Client, f: Frame): Client {
    var next := cl.(taken := cl.taken + 1);
    if f.header.kind != Stream then Hand(next, Got(f))
    else
      match DecodeStreamHeader(f.header)
      case Err(_) => Stop(next)
      case Ok(h) =>
        if h.requestId != REQUEST_ID then Stop(next)
        else if f.payload == [] then next
        else
          match h.channel
          case Stdout => next.(stdout := next.stdout + f.payload)
          case Stderr => next.(stderr := next.stderr + f.payload)
          case _ => Stop(next)
  }

  /** The first response: anything but the shell's announcement ends the session. */
  function StartOn(c: ReplyCodec, cl: Client, f: Frame): Client {
    if f.header.kind == Response && c.decode(f.payload) == Some(ShellStarted) then cl.(started := true, taken := 1)
    else cl.(taken := 1, verdict := Some(SessionFailed))
  }

  /** The main loop takes the next item; an empty queue whose reader is gone counts as a broken connection. */
  function MainOne(c: ReplyCodec, cl: Client): Client {
    if cl.queue == [] then cl.(verdict := Some(SessionFailed))
    else
      var verdict := match cl.queue[0]
        case Broken => SessionFailed
        case Got(f) =>
          if f.header.kind != Response then SessionFailed
          else match c.decode(f.payload) case Some(ShellExit(status)) => Exited(status) case _ => SessionFailed;
      cl.(queue := cl.queue[1..], verdict := Some(verdict))
  }

  // ---------------------------------------------------------------------
  // The system
  // ---------------------------------------------------------------------

  predicate CanAct(c: ReplyCodec, s: System, a: Action) {
    AllSendable(c, s.server.sent) && s.client.verdict.None? &&
    match a
    case DaemonTakes(step) => Enabled(s.server, step)
    case DaemonReports => !s.server.ended && !Looping(s.server)
    case ClientStarts => !s.client.started && |Arrived(c, s)| > 0
    case ReaderTakes =>
      s.client.started && s.client.reading && s.client.taken < |Arrived(c, s)| && |s.client.queue| < QUEUE_CAPACITY
    case ReaderSeesEnd =>
      s.client.started && s.client.reading && s.server.ended && s.client.taken == |Arrived(c, s)| &&
      |s.client.queue| < QUEUE_CAPACITY
    case MainTakes => s.client.started && (s.client.queue != [] || !s.client.reading)
  }

  predicate AllSendable(c: ReplyCodec, sent: seq<Sent>)
    ensures AllSendable(c, sent) <==> AllCanSend(c, sent)
  {
    forall x | x in sent :: CanSend(c, x)
  }

  function Act(c: ReplyCodec, s: System, a: Action): System
    requires CanAct(c, s, a)
  {
    match a
    case DaemonTakes(step) => s.(server := Take(s.server, step))
    case DaemonReports => s.(server := Finished(s.server))
    case ClientStarts => s.(client := StartOn(c, s.client, Arrived(c, s)[0]))
    case ReaderTakes => s.(client := ReadOne(s.client, Arrived(c, s)[s.client.taken]))
    case ReaderSeesEnd => s.(client := Stop(s.client))
    case MainTakes => s.(client := MainOne(c, s.client))
  }

  function Begin(stdout: seq<Byte>, stderr: seq<Byte>): System {
    System(Start(true, stdout, stderr), Client(false, 0, [], [], [], true, None))
  }

  ghost predicate CanRun(c: ReplyCodec, s: System, actions: seq<Action>)
    decreases |actions|
  {
    actions == [] || (CanAct(c, s, actions[0]) && CanRun(c, Act(c, s, actions[0]), actions[1..]))
  }

  function RunAll(c: ReplyCodec, s: System, actions: seq<Action>): System
    requires CanRun(c, s, actions)
    decreases |actions|
  {
    if actions == [] then s else RunAll(c, Act(c, s, actions[0]), actions[1..])
  }

  // ---------------------------------------------------------------------
  // The invariant
  // ---------------------------------------------------------------------

  ghost predicate ShellServer(s: Server, stdout: seq<Byte>, stderr: seq<Byte>) {
    s.shell && Inv(s, stdout, stderr)
  }

  /** The client has written exactly the output among the frames it has taken. */
  ghost predicate Caught(s: System) {
    s.client.taken <= |s.server.sent| &&
    s.client.stdout == Relayed(s.server.sent[..s.client.taken], ChildOut) &&
    s.client.stderr == Relayed(s.server.sent[..s.client.taken], ChildErr)
  }

  /** The terminating response has been read. */
  predicate TookLast(s: System) {
    s.server.ended && s.client.taken == |s.server.sent|
  }

  /** The queue holds the terminating response once it has been read, then the end of the connection. */
  ghost predicate Queued(c: ReplyCodec, s: System) {
    AllCanSend(c, s.server.sent) &&
    if TookLast(s) then
      s.server.sent != [] &&
      s.client.queue == [Got(FrameOf(c, REQUEST_ID, s.server.sent[|s.server.sent| - 1]))]
                        + (if s.client.reading then [] else [Broken])
    else s.client.queue == [] && s.client.reading
  }

  ghost predicate SystemInv(c: ReplyCodec, s: System, stdout: seq<Byte>, stderr: seq<Byte>) {
    ShellServer(s.server, stdout, stderr) && AllCanSend(c, s.server.sent) &&
    (s.client.started <==> s.client.taken > 0) && Caught(s) &&
    match s.client.verdict
    case None => Queued(c, s)
    case Some(Exited(status)) => TookLast(s) && s.server.sent[|s.server.sent| - 1] == Respond(ShellExit(status))
    case Some(SessionFailed) => TookLast(s) && s.server.sent[|s.server.sent| - 1] == Respond(ErrorReply)
  }

  lemma ArrivedIsSent(c: ReplyCodec, s: System)
    requires AllCanSend(c, s.server.sent)
    ensures Arrived(c, s) == FramesOf(c, REQUEST_ID, s.server.sent)
  {
    hide FrameOf, ReadAll, CanSend, Sendable;
    var frames := FramesOf(c, REQUEST_ID, s.server.sent);
    forall f | f in frames
      ensures Sendable(f)
    {
      var i :| 0 <= i < |frames| && frames[i] == f;
      assert f == FrameOf(c, REQUEST_ID, s.server.sent[i]);
    }
    ReadAllWire(frames, []);
    ReadAllNothing();
    assert Wire(frames) + [] == Wire(frames);
  }

  lemma SentStaysSendable(c: ReplyCodec, s: Server, step: Step)
    requires SmallReplies(c) && AllCanSend(c, s.sent) && Enabled(s, step)
    ensures AllCanSend(c, Take(s, step).sent)
  {
  }

  /** Sending more leaves what the client has caught up with as it was. */
  lemma DaemonKeeps(c: ReplyCodec, s: System, server: Server, stdout: seq<Byte>, stderr: seq<Byte>)
    requires SystemInv(c, s, stdout, stderr) && s.client.verdict.None? && !s.server.ended
    requires ShellServer(server, stdout, stderr) && AllCanSend(c, server.sent) && s.server.sent <= server.sent
    requires server.ended ==> |server.sent| > |s.server.sent|
    ensures SystemInv(c, s.(server := server), stdout, stderr)
  {
    hide Inv, FrameOf;
    assert server.sent[..s.client.taken] == s.server.sent[..s.client.taken];
  }

  lemma DaemonStepKeeps(c: ReplyCodec, s: System, step: Step, stdout: seq<Byte>, stderr: seq<Byte>)
    requires SmallReplies(c) && SystemInv(c, s, stdout, stderr) && CanAct(c, s, DaemonTakes(step))
    ensures SystemInv(c, Act(c, s, DaemonTakes(step)), stdout, stderr)
  {
    TakeKeepsInv(s.server, step, stdout, stderr);
    SentStaysSendable(c, s.server, step);
    hide Inv, SystemInv;
    InvOf(c, s, stdout, stderr);
    DaemonKeeps(c, s, Take(s.server, step), stdout, stderr);
  }

  lemma InvOf(c: ReplyCodec, s: System, stdout: seq<Byte>, stderr: seq<Byte>)
    requires SystemInv(c, s, stdout, stderr)
    ensures ShellServer(s.server, stdout, stderr) && AllCanSend(c, s.server.sent)
  {
  }

  lemma DaemonReportKeeps(c: ReplyCodec, s: System, stdout: seq<Byte>, stderr: seq<Byte>)
    requires SmallReplies(c) && SystemInv(c, s, stdout, stderr) && CanAct(c, s, DaemonReports)
    ensures SystemInv(c, Act(c, s, DaemonReports), stdout, stderr)
  {
    InvOf(c, s, stdout, stderr);
    FinishedKeepsInv(s.server, stdout, stderr);
    hide Inv, SystemInv;
    DaemonKeeps(c, s, Finished(s.server), stdout, stderr);
  }

  lemma StartKeeps(c: ReplyCodec, s: System, stdout: seq<Byte>, stderr: seq<Byte>)
    requires FaithfulReplies(c) && SystemInv(c, s, stdout, stderr) && CanAct(c, s, ClientStarts)
    ensures SystemInv(c, Act(c, s, ClientStarts), stdout, stderr)
  {
    ArrivedIsSent(c, s);
    hide ReadAll;
    var sent := s.server.sent;
    assert sent[0] == Respond(ShellStarted);
    SendOne([], sent[0], ChildOut);
    SendOne([], sent[0], ChildErr);
    assert sent[..1] == [] + [sent[0]];
    assert s.server.ended ==> |sent| > 1;
  }

  /** What the reader task makes of each thing the daemon sends. */
  lemma ReadsAsSent(c: ReplyCodec, cl: Client, x: Sent)
    requires CanSend(c, x)
    ensures var next := ReadOne(cl, FrameOf(c, REQUEST_ID, x));
            match x
            case Chunk(ChildOut, _, payload) => next == cl.(taken := cl.taken + 1, stdout := cl.stdout + payload)
            case Chunk(ChildErr, _, payload) => next == cl.(taken := cl.taken + 1, stderr := cl.stderr + payload)
            case Respond(m) => next == Hand(cl, Got(FrameOf(c, REQUEST_ID, x))).(taken := cl.taken + 1)
  {
    match x
    case Chunk(channel, eof, payload) =>
      hide DecodeStreamHeader, StreamFlags;
      StreamHeaderRoundTrip(REQUEST_ID, WireChannel(channel), eof, payload);
      assert cl.stdout + [] == cl.stdout && cl.stderr + [] == cl.stderr;
    case Respond(m) =>
  }

  /**
   What the reader task makes of any frame at all: it hands on what is no stream frame, appends the payload of a stdout
   or stderr frame of this request, passes over an empty one of a known channel, and gives up on everything else.
   */
  lemma ReadsExactly(cl: Client, f: Frame)
    ensures var next, number := cl.(taken := cl.taken + 1), f.header.flags % 256;
            ReadOne(cl, f) ==
            if f.header.kind != FrameKind.Stream then next.(queue := cl.queue + [Got(f)])
            else if number == 3 && f.header.requestId == REQUEST_ID then next.(stdout := cl.stdout + f.payload)
            else if number == 4 && f.header.requestId == REQUEST_ID then next.(stderr := cl.stderr + f.payload)
            else if 1 <= number <= 2 && f.header.requestId == REQUEST_ID && f.payload == [] then next
            else next.(queue := cl.queue + [Broken], reading := false)
  {
    hide BitAnd;
    if f.header.kind == FrameKind.Stream {
      StreamFlagBits(f.header);
      assert cl.stdout + [] == cl.stdout && cl.stderr + [] == cl.stderr;
    }
  }

  /** The main loop returns a status exactly for the shell's exit response, whatever else may be in the queue. */
  lemma ReturnsExactly(c: ReplyCodec, cl: Client, status: Status)
    requires cl.verdict.None?
    ensures MainOne(c, cl).verdict == Some(Exited(status)) <==>
            cl.queue != [] && cl.queue[0].Got? && cl.queue[0].frame.header.kind == FrameKind.Response &&
            c.decode(cl.queue[0].frame.payload) == Some(ShellExit(status))
  {
  }

  lemma ReaderKeeps(c: ReplyCodec, s: System, stdout: seq<Byte>, stderr: seq<Byte>)
    requires SystemInv(c, s, stdout, stderr) && CanAct(c, s, ReaderTakes)
    ensures SystemInv(c, Act(c, s, ReaderTakes), stdout, stderr)
  {
    hide Inv, FrameOf, ReadOne, Relayed, Arrived, CanSend;
    ArrivedIsSent(c, s);
    var sent, taken := s.server.sent, s.client.taken;
    var next := ReadOne(s.client, FrameOf(c, REQUEST_ID, sent[taken]));
    ReadsAsSent(c, s.client, sent[taken]);
    OnlyLastTerminates(s.server, stdout, stderr, taken);
    CatchUp(s, taken);
    assert Act(c, s, ReaderTakes) == s.(client := next);
  }

  lemma CatchUp(s: System, i: nat)
    requires i < |s.server.sent|
    ensures forall channel :: Relayed(s.server.sent[..i + 1], channel) ==
              Relayed(s.server.sent[..i], channel)
              + if On(s.server.sent[i], channel) then s.server.sent[i].payload else []
    ensures forall channel :: Relayed(s.server.sent[..i], channel) + [] == Relayed(s.server.sent[..i], channel)
  {
    forall channel
      ensures Relayed(s.server.sent[..i + 1], channel) ==
              Relayed(s.server.sent[..i], channel)
              + if On(s.server.sent[i], channel) then s.server.sent[i].payload else []
    {
      assert s.server.sent[..i + 1] == s.server.sent[..i] + [s.server.sent[i]];
      SendOne(s.server.sent[..i], s.server.sent[i], channel);
    }
  }

  /** After the announcement, a response is the terminating one, and comes last. */
  lemma OnlyLastTerminates(s: Server, stdout: seq<Byte>, stderr: seq<Byte>, i: nat)
    requires ShellServer(s, stdout, stderr) && 0 < i < |s.sent|
    ensures s.sent[i].Respond? <==> s.ended && i == |s.sent| - 1
  {
    if s.ended && i < |s.sent| - 1 {
      assert !Terminates(s.sent[..|s.sent| - 1][i]);
    }
  }

  lemma EndKeeps(c: ReplyCodec, s: System, stdout: seq<Byte>, stderr: seq<Byte>)
    requires SystemInv(c, s, stdout, stderr) && CanAct(c, s, ReaderSeesEnd)
    ensures SystemInv(c, Act(c, s, ReaderSeesEnd), stdout, stderr)
  {
    ArrivedIsSent(c, s);
    hide Inv, FrameOf, ReadAll;
  }

  lemma MainKeeps(c: ReplyCodec, s: System, stdout: seq<Byte>, stderr: seq<Byte>)
    requires FaithfulReplies(c) && SystemInv(c, s, stdout, stderr) && CanAct(c, s, MainTakes)
    ensures SystemInv(c, Act(c, s, MainTakes), stdout, stderr)
  {
    LastReply(s.server, stdout, stderr);
    hide Inv, ReadAll, Relayed;
  }

  lemma LastReply(s: Server, stdout: seq<Byte>, stderr: seq<Byte>)
    requires ShellServer(s, stdout, stderr)
    ensures s.ended ==>
              s.sent != [] &&
              (s.sent[|s.sent| - 1] == Respond(ErrorReply) ||
               (s.exit.Some? && s.sent[|s.sent| - 1] == Respond(ShellExit(s.exit.value))))
  {
  }

  /** Every action of every party keeps the invariant. */
  lemma ActKeepsInv(c: ReplyCodec, s: System, a: Action, stdout: seq<Byte>, stderr: seq<Byte>)
    requires FaithfulReplies(c) && SystemInv(c, s, stdout, stderr) && CanAct(c, s, a)
    ensures SystemInv(c, Act(c, s, a), stdout, stderr)
  {
    hide SystemInv, CanAct, Act;
    match a
    case DaemonTakes(step) => DaemonStepKeeps(c, s, step, stdout, stderr);
    case DaemonReports => DaemonReportKeeps(c, s, stdout, stderr);
    case ClientStarts => StartKeeps(c, s, stdout, stderr);
    case ReaderTakes => ReaderKeeps(c, s, stdout, stderr);
    case ReaderSeesEnd => EndKeeps(c, s, stdout, stderr);
    case MainTakes => MainKeeps(c, s, stdout, stderr);
  }

  lemma {:induction false} RunAllKeepsInv(c: ReplyCodec, s: System, actions: seq<Action>, stdout: seq<Byte>, stderr: seq<Byte>)
    requires FaithfulReplies(c) && SystemInv(c, s, stdout, stderr) && CanRun(c, s, actions)
    ensures SystemInv(c, RunAll(c, s, actions), stdout, stderr)
    decreases |actions|
  {
    hide SystemInv, CanAct, Act;
    if actions != [] {
      ActKeepsInv(c, s, actions[0], stdout, stderr);
      RunAllKeepsInv(c, Act(c, s, actions[0]), actions[1..], stdout, stderr);
    }
  }

  /**
   The shell client over every interleaving of the daemon, its child, the reader task and the main loop: what it has
   written is always a prefix of what the child writes; when it returns a status it has written all of both
   channels, and the status is the exit code the child was reaped with, or -1 if a signal killed it; it fails only on
   the daemon's error response.
   */
  lemma ShellSession(c: ReplyCodec, stdout: seq<Byte>, stderr: seq<Byte>, actions: seq<Action>)
    requires FaithfulReplies(c) && CanRun(c, Begin(stdout, stderr), actions)
    ensures var s := RunAll(c, Begin(stdout, stderr), actions);
            s.client.stdout <= stdout && s.client.stderr <= stderr &&
            match s.client.verdict
            case None => true
            case Some(Exited(status)) =>
              s.client.stdout == stdout && s.client.stderr == stderr &&
              (DaemonTakes(Reap(Some(status))) in actions || (DaemonTakes(Reap(None)) in actions && status == -1))
            case Some(SessionFailed) => s.server.sent != [] && s.server.sent[|s.server.sent| - 1] == Respond(ErrorReply)
  {
    BeginInv(c, stdout, stderr);
    RunAllKeepsInv(c, Begin(stdout, stderr), actions, stdout, stderr);
    var s := RunAll(c, Begin(stdout, stderr), actions);
    StatusIsReaped(c, Begin(stdout, stderr), actions);
    hide RunAll, CanRun;
    CaughtIsPrefix(s.server.sent, s.client.taken, ChildOut);
    CaughtIsPrefix(s.server.sent, s.client.taken, ChildErr);
    InvMeans(s.server, stdout, stderr);
    assert s.server.sent[..|s.server.sent|] == s.server.sent;
  }

  /** A status comes from the reaping of the child, wherever in the run that was. */
  lemma {:induction false} StatusIsReaped(c: ReplyCodec, s: System, actions: seq<Action>)
    requires CanRun(c, s, actions) && s.server.exit.None?
    ensures var exit := RunAll(c, s, actions).server.exit;
            exit.Some? ==> DaemonTakes(Reap(exit)) in actions || (DaemonTakes(Reap(None)) in actions && exit == Some(-1))
    decreases |actions|
  {
    hide CanAct, ReadOne, MainOne, StartOn, Arrived;
    if actions != [] {
      var next := Act(c, s, actions[0]);
      assert forall a :: a in actions <==> a == actions[0] || a in actions[1..];
      if next.server.exit.None? {
        StatusIsReaped(c, next, actions[1..]);
      } else {
        StatusStays(c, next, actions[1..]);
        ActSets(c, s, actions[0]);
      }
    }
  }

  lemma ActSets(c: ReplyCodec, s: System, a: Action)
    requires CanAct(c, s, a) && s.server.exit.None?
    ensures var exit := Act(c, s, a).server.exit;
            exit.Some? ==> a == DaemonTakes(Reap(exit)) || (a == DaemonTakes(Reap(None)) && exit == Some(-1))
  {
    hide ReadOne, MainOne, StartOn, Arrived;
  }

  lemma {:induction false} StatusStays(c: ReplyCodec, s: System, actions: seq<Action>)
    requires CanRun(c, s, actions) && s.server.exit.Some?
    ensures RunAll(c, s, actions).server.exit == s.server.exit
    decreases |actions|
  {
    if actions != [] {
      ActKeepsStatus(c, s, actions[0]);
      StatusStays(c, Act(c, s, actions[0]), actions[1..]);
    }
  }

  lemma ActKeepsStatus(c: ReplyCodec, s: System, a: Action)
    requires CanAct(c, s, a) && s.server.exit.Some?
    ensures Act(c, s, a).server.exit == s.server.exit
  {
    hide ReadOne, MainOne, StartOn, Arrived;
  }

  lemma BeginInv(c: ReplyCodec, stdout: seq<Byte>, stderr: seq<Byte>)
    requires SmallReplies(c)
    ensures SystemInv(c, Begin(stdout, stderr), stdout, stderr)
  {
    StartInv(true, stdout, stderr);
    hide Inv;
    assert Begin(stdout, stderr).server.sent[..0] == [];
  }

  lemma {:induction false} CaughtIsPrefix(sent: seq<Sent>, n: nat, channel: Channel)
    requires n <= |sent|
    ensures Relayed(sent[..n], channel) <= Relayed(sent, channel)
    decreases |sent|
  {
    if n < |sent| {
      CaughtIsPrefix(sent[..|sent| - 1], n, channel);
      assert sent[..|sent| - 1][..n] == sent[..n];
    } else {
      assert sent[..n] == sent;
    }
  }
}
