/**
 Message codecs written out. They stand for the JSON encodings only in what the
 other modules ask of a codec: that it loses nothing, and that short messages
 fit a frame. So what those modules require can be met.
 */
module Codecs {
  import opened Base
  import opened Frames
  import opened Paths
  import opened Manifest
  import opened Transfer
  import opened PullTheorems
  import opened Push
  import opened Mux
  import opened ShellClient

  // ---------------------------------------------------------------------
  // Numbers
  // ---------------------------------------------------------------------

  /** Seven bits a byte, the low ones first; the top bit says that more follow. */
  function Varint(n: nat): seq<Byte> {
    if n < 128 then [n] else [128 + n % 128] + Varint(n / 128)
  }

  function ReadVarint(s: seq<Byte>): (r: Option<(nat, seq<Byte>)>)
    ensures r.Some? ==> |r.value.1| < |s|
  {
    if s == [] then None
    else if s[0] < 128 then Some((s[0], s[1..]))
    else
      match ReadVarint(s[1..])
      case None => None
      case Some((high, rest)) => Some((s[0] - 128 + 128 * high, rest))
  }

  lemma ReadVarintOn(low: nat, tail: seq<Byte>)
    requires low < 128
    ensures ReadVarint([low] + tail) == Some((low, tail))
    ensures ReadVarint([128 + low] + tail) ==
            match ReadVarint(tail) case None => None case Some((high, rest)) => Some((low + 128 * high, rest))
  {
    assert ([low] + tail)[1..] == tail && ([128 + low] + tail)[1..] == tail;
  }

  lemma VarintOn(n: nat)
    ensures n < 128 ==> Varint(n) == [n]
    ensures n >= 128 ==> Varint(n) == [128 + n % 128] + Varint(n / 128)
  {
  }

  lemma {:induction false} VarintRoundTrip(n: nat, rest: seq<Byte>)
    ensures ReadVarint(Varint(n) + rest) == Some((n, rest))
    decreases n
  {
    hide *;
    VarintOn(n);
    if n < 128 {
      ReadVarintOn(n, rest);
    } else {
      var low, high := n % 128, n / 128;
      VarintRoundTrip(high, rest);
      ReadVarintOn(low, Varint(high) + rest);
      Associate([128 + low], Varint(high), rest);
      assert low + 128 * high == n;
    }
  }

  function Pow128(k: nat): nat {
    if k == 0 then 1 else 128 * Pow128(k - 1)
  }

  lemma {:induction false} VarintLength(n: nat, k: nat)
    requires n < Pow128(k) && k > 0
    ensures |Varint(n)| <= k
    decreases k
  {
    if n >= 128 {
      VarintLength(n / 128, k - 1);
    }
  }

  function Varints(ns: seq<nat>): seq<Byte> {
    if ns == [] then [] else Varint(ns[0]) + Varints(ns[1..])
  }

  function ReadVarints(s: seq<Byte>): Option<seq<nat>>
    decreases |s|
  {
    if s == [] then Some([])
    else
      match ReadVarint(s)
      case None => None
      case Some((n, rest)) =>
        match ReadVarints(rest) case None => None case Some(ns) => Some([n] + ns)
  }

  lemma {:induction false} VarintsRoundTrip(ns: seq<nat>)
    ensures ReadVarints(Varints(ns)) == Some(ns)
  {
    if ns != [] {
      VarintRoundTrip(ns[0], Varints(ns[1..]));
      VarintsRoundTrip(ns[1..]);
      assert Varint(ns[0]) != [] && Varints(ns) == Varint(ns[0]) + Varints(ns[1..]);
      assert [ns[0]] + ns[1..] == ns;
    }
  }

  // ---------------------------------------------------------------------
  // Messages as lists of numbers
  // ---------------------------------------------------------------------

  /** A value read off the front of a list of numbers, and the numbers left. */
  type Parsed<T> = Option<(T, seq<nat>)>

  function Chars(s: string): seq<nat> {
    if s == "" then [] else [s[0] as int] + Chars(s[1..])
  }

  function ReadChars(n: nat, ns: seq<nat>): Parsed<string>
    decreases n
  {
    if n == 0 then Some(("", ns))
    else if ns == [] || !(ns[0] < 0xD800 || 0xE000 <= ns[0] < 0x11_0000) then None
    else
      match ReadChars(n - 1, ns[1..])
      case None => None
      case Some((s, rest)) => Some(([ns[0] as char] + s, rest))
  }

  lemma {:induction false} CharsRoundTrip(s: string, rest: seq<nat>)
    ensures ReadChars(|s|, Chars(s) + rest) == Some((s, rest))
  {
    if s == "" {
      assert Chars(s) + rest == rest;
    } else {
      CharsRoundTrip(s[1..], rest);
      var ns := Chars(s) + rest;
      assert ns[0] == s[0] as int && ns[1..] == Chars(s[1..]) + rest;
      assert [s[0]] + s[1..] == s;
    }
  }

  function Text(s: string): seq<nat> {
    [|s|] + Chars(s)
  }

  function ReadText(ns: seq<nat>): Parsed<string> {
    if ns == [] then None else ReadChars(ns[0], ns[1..])
  }

  lemma TextRoundTrip(s: string, rest: seq<nat>)
    ensures ReadText(Text(s) + rest) == Some((s, rest))
  {
    CharsRoundTrip(s, rest);
    assert (Text(s) + rest)[1..] == Chars(s) + rest;
  }

  function Kind(k: EntryKind): nat {
    if k.FileEntry? then 0 else 1
  }

  function KindOfNumber(n: nat): EntryKind {
    if n == 0 then FileEntry else DirectoryEntry
  }

  function Root(r: TransferRoot): seq<nat> {
    Text(r.sourceName) + [Kind(r.kind), r.mode]
  }

  function ReadRoot(ns: seq<nat>): Parsed<TransferRoot> {
    match ReadText(ns)
    case None => None
    case Some((name, rest)) =>
      if |rest| < 2 || !ValidName(name) then None
      else Some((TransferRoot(name, KindOfNumber(rest[0]), rest[1]), rest[2..]))
  }

  lemma RootRoundTrip(r: TransferRoot, rest: seq<nat>)
    ensures ReadRoot(Root(r) + rest) == Some((r, rest))
  {
    var tail := [Kind(r.kind), r.mode] + rest;
    assert Root(r) + rest == Text(r.sourceName) + tail;
    TextRoundTrip(r.sourceName, tail);
    assert tail[2..] == rest;
  }

  function Entry(e: TransferEntry): seq<nat> {
    Text(e.relativePath) + [e.rootIndex, Kind(e.kind), e.mode, e.size]
  }

  function ReadEntry(ns: seq<nat>): Parsed<TransferEntry> {
    match ReadText(ns)
    case None => None
    case Some((path, rest)) =>
      if |rest| < 4 then None
      else Some((TransferEntry(rest[0], path, KindOfNumber(rest[1]), rest[2], rest[3]), rest[4..]))
  }

  lemma EntryRoundTrip(e: TransferEntry, rest: seq<nat>)
    ensures ReadEntry(Entry(e) + rest) == Some((e, rest))
  {
    var tail := [e.rootIndex, Kind(e.kind), e.mode, e.size] + rest;
    assert Entry(e) + rest == Text(e.relativePath) + tail;
    TextRoundTrip(e.relativePath, tail);
    assert tail[4..] == rest;
  }

  function Each<T>(xs: seq<T>, show: T -> seq<nat>): seq<nat> {
    if xs == [] then [] else show(xs[0]) + Each(xs[1..], show)
  }

  function ReadEach<T>(n: nat, ns: seq<nat>, read: seq<nat> -> Parsed<T>): Parsed<seq<T>>
    decreases n
  {
    if n == 0 then Some(([], ns))
    else
      match read(ns)
      case None => None
      case Some((x, rest)) =>
        match ReadEach(n - 1, rest, read)
        case None => None
        case Some((xs, left)) => Some(([x] + xs, left))
  }

  ghost predicate ReadsBack<T(!new)>(show: T -> seq<nat>, read: seq<nat> -> Parsed<T>) {
    forall x: T, rest: seq<nat> :: read(show(x) + rest) == Some((x, rest))
  }

  lemma {:induction false} EachRoundTrip<T(!new)>(xs: seq<T>, show: T -> seq<nat>, read: seq<nat> -> Parsed<T>, rest: seq<nat>)
    requires ReadsBack(show, read)
    ensures ReadEach(|xs|, Each(xs, show) + rest, read) == Some((xs, rest))
  {
    if xs == [] {
      assert Each(xs, show) + rest == rest;
    } else {
      EachRoundTrip(xs[1..], show, read, rest);
      var tail := Each(xs[1..], show) + rest;
      Associate(show(xs[0]), Each(xs[1..], show), rest);
      assert read(show(xs[0]) + tail) == Some((xs[0], tail));
      assert [xs[0]] + xs[1..] == xs;
    }
  }

  /** An error response is one printable byte, so that its text has no control bytes. */
  const PRINTABLE := 0x20

  function Numbers(m: Message): seq<nat> {
    match m
    case ErrorResponse => [PRINTABLE]
    case PushBatchReady => [1]
    case PushBatchComplete(entries, bytes) => [2, entries, bytes]
    case PullBatchComplete(entries, bytes) => [3, entries, bytes]
    case PullBatchMetadata(roots, entries, total) =>
      [4, total, |roots|, |entries|] + (Each(roots, Root) + Each(entries, Entry))
  }

  function ReadLists(ns: seq<nat>): Option<Message> {
    if |ns| < 4 then None
    else
      match ReadEach(ns[2], ns[4..], ReadRoot)
      case None => None
      case Some((roots, rest)) =>
        match ReadEach(ns[3], rest, ReadEntry)
        case None => None
        case Some((entries, _)) => Some(PullBatchMetadata(roots, entries, ns[1]))
  }

  function ReadNumbers(ns: seq<nat>): Option<Message> {
    if ns == [] then None
    else if ns[0] == PRINTABLE then Some(ErrorResponse)
    else if ns[0] == 1 then Some(PushBatchReady)
    else if ns[0] == 2 && |ns| == 3 then Some(PushBatchComplete(ns[1], ns[2]))
    else if ns[0] == 3 && |ns| == 3 then Some(PullBatchComplete(ns[1], ns[2]))
    else if ns[0] == 4 then ReadLists(ns)
    else None
  }

  lemma NumbersRoundTrip(m: Message)
    ensures ReadNumbers(Numbers(m)) == Some(m)
  {
    if m.PullBatchMetadata? {
      var ns, tail := Numbers(m), Each(m.entries, Entry) + [];
      RootsReadBack();
      EntriesReadBack();
      assert ns[4..] == Each(m.roots, Root) + tail;
      EachRoundTrip(m.roots, Root, ReadRoot, tail);
      EachRoundTrip(m.entries, Entry, ReadEntry, []);
    }
  }

  lemma RootsReadBack()
    ensures ReadsBack(Root, ReadRoot)
  {
    forall r: TransferRoot, rest: seq<nat>
      ensures ReadRoot(Root(r) + rest) == Some((r, rest))
    {
      RootRoundTrip(r, rest);
    }
  }

  lemma EntriesReadBack()
    ensures ReadsBack(Entry, ReadEntry)
  {
    forall e: TransferEntry, rest: seq<nat>
      ensures ReadEntry(Entry(e) + rest) == Some((e, rest))
    {
      EntryRoundTrip(e, rest);
    }
  }

  // ---------------------------------------------------------------------
  // The codecs
  // ---------------------------------------------------------------------

  function EncodeMessage(m: Message): seq<Byte> {
    Varints(Numbers(m))
  }

  function DecodeMessage(bytes: seq<Byte>): Option<Message> {
    match ReadVarints(bytes) case None => None case Some(ns) => ReadNumbers(ns)
  }

  /**
   A lossless codec with which every reply to a push fits a frame, its counts being 64-bit numbers, and with a text of an
   error response as the theorems about failed pulls ask for.
   */
  lemma LosslessCodecExists() returns (c: Codec, text: seq<Byte>)
    ensures |text| <= MAX_PAYLOAD_LEN && TextBytes(text) && c.decode(text) == Some(ErrorResponse)
    ensures Lossless(c) && Fits(c, ErrorResponse) && Fits(c, PushBatchReady)
    ensures forall n: nat, b: nat | n < 0x1_0000_0000_0000_0000 && b < 0x1_0000_0000_0000_0000 ::
              Fits(c, PushBatchComplete(n, b)) && Fits(c, PullBatchComplete(n, b))
  {
    c, text := Codec(EncodeMessage, DecodeMessage), [PRINTABLE];
    assert EncodeMessage(ErrorResponse) == text;
    forall m: Message
      ensures c.decode(c.encode(m)) == Some(m)
    {
      MessageReadBack(m);
    }
    hide DecodeMessage;
    ShortList([PRINTABLE]);
    ShortList([1]);
    forall n: nat, b: nat | n < 0x1_0000_0000_0000_0000 && b < 0x1_0000_0000_0000_0000
      ensures Fits(c, PushBatchComplete(n, b)) && Fits(c, PullBatchComplete(n, b))
    {
      ShortList([2, n, b]);
      ShortList([3, n, b]);
    }
  }

  lemma MessageReadBack(m: Message)
    ensures DecodeMessage(EncodeMessage(m)) == Some(m)
  {
    hide Numbers, ReadNumbers, Varints, ReadVarints;
    VarintsRoundTrip(Numbers(m));
    NumbersRoundTrip(m);
  }

  lemma {:induction false} ShortList(ns: seq<nat>)
    requires |ns| <= 3 && forall i | 0 <= i < |ns| :: ns[i] < 0x1_0000_0000_0000_0000
    ensures |Varints(ns)| <= 10 * |ns|
  {
    if ns != [] {
      Pow128Ten();
      VarintLength(ns[0], 10);
      ShortList(ns[1..]);
    }
  }

  lemma Pow128Ten()
    ensures Pow128(10) >= 0x1_0000_0000_0000_0000
  {
    assert Pow128(5) == 0x8_0000_0000 by {
      assert Pow128(2) == 0x4000;
    }
    assert Pow128(8) == 128 * (128 * (128 * Pow128(5)));
  }

  /** A status moved into the natural numbers. */
  function EncodeReply(m: Reply): seq<Byte> {
    match m
    case ShellStarted => [0]
    case ErrorReply => [1]
    case ShellExit(status) => [2] + Varint(status + 0x8000_0000)
    case ExecResult(status) => [3] + Varint(status + 0x8000_0000)
  }

  function ReadStatus(bytes: seq<Byte>): Option<Status> {
    match ReadVarint(bytes)
    case None => None
    case Some((n, _)) => if n < 0x1_0000_0000 then Some(n - 0x8000_0000) else None
  }

  function DecodeReply(bytes: seq<Byte>): Option<Reply> {
    if bytes == [] then None
    else if bytes[0] == 0 then Some(ShellStarted)
    else if bytes[0] == 1 then Some(ErrorReply)
    else
      match ReadStatus(bytes[1..])
      case None => None
      case Some(status) => Some(if bytes[0] == 2 then ShellExit(status) else ExecResult(status))
  }

  /** A codec as the multiplexer and the shell client require it. */
  lemma FaithfulRepliesExist() returns (c: ReplyCodec)
    ensures FaithfulReplies(c) && SmallReplies(c)
  {
    c := ReplyCodec(EncodeReply, DecodeReply);
    forall m: Reply
      ensures |c.encode(m)| <= MAX_PAYLOAD_LEN && c.decode(c.encode(m)) == Some(m)
    {
      if m.ShellExit? || m.ExecResult? {
        StatusReadBack(m.status);
        assert EncodeReply(m)[1..] == Varint(m.status + 0x8000_0000);
      }
    }
  }

  lemma StatusReadBack(status: Status)
    ensures ReadStatus(Varint(status + 0x8000_0000)) == Some(status) && |Varint(status + 0x8000_0000)| <= 10
  {
    var n: nat := status + 0x8000_0000;
    VarintRoundTrip(n, []);
    assert Varint(n) + [] == Varint(n);
    Pow128Ten();
    VarintLength(n, 10);
  }
}
