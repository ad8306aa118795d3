/** The read-request side of tftp_server.c: its packets, its handlers on the one global file, and transfers. */
module Tftp {
  import opened Options
  import opened ByteStrings

  // ---------- 16-bit numbers ----------

  function Low(n: int): byte { (n % 256) as byte }
  function High(n: int): byte { (n / 256 % 256) as byte }

  /** ntohs: network order puts the high byte first. */
  function Word(high: byte, low: byte): (w: int)
    ensures 0 <= w < 0x1_0000
  {
    high as int * 256 + low as int
  }

  /** Storing an int in a short: numbers from 0x8000 on become negative. */
  function ToShort(n: int): (s: int)
    requires -0x8000 <= n < 0x1_0000
    ensures -0x8000 <= s < 0x8000
  {
    if n < 0x8000 then n else n - 0x1_0000
  }

  /** The 16 bits of a short, read as an unsigned number. */
  function Unsigned(s: int): (w: int)
    requires -0x8000 <= s < 0x8000
    ensures 0 <= w < 0x1_0000
  {
    if s < 0 then s + 0x1_0000 else s
  }

  // ---------- Packets, section 5 of RFC 1350 ----------

  const ACK: int := 4

  /** A DATA packet; the payload is at most one block. */
  datatype Packet = Packet(number: int, payload: seq<byte>)

  /** The bytes make_data writes for a block held in a short: opcode 3, block number, data. */
  function Encode(block: int, data: seq<byte>): seq<byte> {
    [0, 3, High(block), Low(block)] + data
  }

  /** Reading a packet back: opcode, number, payload. */
  function Decode(bytes: seq<byte>): (int, Packet)
    requires |bytes| >= 4
  {
    (Word(bytes[0], bytes[1]), Packet(Word(bytes[2], bytes[3]), bytes[4..]))
  }

  lemma DecodesAsSent(block: int, data: seq<byte>)
    requires -0x8000 <= block < 0x8000
    ensures Decode(Encode(block, data)) == (3, Packet(Unsigned(block), data))
    ensures var bytes := Encode(block, data);
      && |bytes| == |data| + 4 && bytes[..2] == [0, 3] && bytes[4..] == data
      && bytes[2] as int * 256 + bytes[3] as int == block % 0x1_0000 == Unsigned(block)
  {
    assert Word(High(block), Low(block)) == block % 0x1_0000;
    assert Encode(block, data)[4..] == data;
  }

  // ---------- The open file ----------

  /** A stdio stream opened for reading. */
  datatype Stream = Stream(content: seq<byte>, pos: nat)

  /** What fread of one block delivers at a position, which may lie past the end. */
  function Slice(content: seq<byte>, pos: nat): (s: seq<byte>)
    ensures |s| <= 512
    ensures |s| == 512 <==> pos + 512 <= |content|
  {
    if pos >= |content| then []
    else if pos + 512 <= |content| then content[pos..pos + 512]
    else content[pos..]
  }

  /** fseek from the start: a negative offset fails and leaves the position alone. */
  function Seek(f: Stream, offset: int): Stream {
    if offset >= 0 then f.(pos := offset) else f
  }

  datatype Reply = Reply(file: Option<Stream>, sent: Option<Packet>)

  /** handle_RRQ on a file that opens: the first block goes out, and the file stays open even when short. */
  function AnswerRequest(content: seq<byte>): Reply {
    var data := Slice(content, 0);
    Reply(Some(Stream(content, |data|)), Some(Packet(1, data)))
  }

  /** handle_ACK: seek by the acknowledged number, read, close after a short read, send the next number. */
  function AnswerAck(file: Option<Stream>, wire: int): Reply
    requires 0 <= wire < 0x1_0000
  {
    match file
    case None => Reply(None, None)
    case Some(f) =>
      var block := ToShort(wire);
      var f' := Seek(f, 512 * block);
      var data := Slice(f'.content, f'.pos);
      Reply(if |data| < 512 then None else Some(f'.(pos := f'.pos + |data|)),
            Some(Packet(Unsigned(ToShort(block + 1)), data)))
  }

  /** The 512 bytes that handle_RRQ sets aside for its packet hold it exactly when the file is short enough. */
  lemma FirstPacketFits(content: seq<byte>)
    ensures |Encode(1, Slice(content, 0))| <= 512 <==> |content| <= 508
  {
    assert |content| < 512 ==> Slice(content, 0) == content;
  }

  /** Block numbers on the wire wrap around. */
  function NextNumber(w: int): int {
    if w == 0xFFFF then 0 else w + 1
  }

  // ---------- Any stream of acknowledgements ----------

  /** Below 0x8000 the answer carries the slice asked for; from there on the seek fails, and the answer
      carries the slice at the current position. */
  lemma AckAnswer(f: Stream, b: int)
    requires 0 <= b < 0x1_0000
    ensures AnswerAck(Some(f), b).sent
         == Some(Packet(NextNumber(b), Slice(f.content, if b < 0x8000 then 512 * b else f.pos)))
  {
  }

  /** An acknowledgement of b is answered by the next number and the file slice at 512 * b. */
  predicate AnswersRightly(f: Stream, b: int)
    requires 0 <= b < 0x1_0000
  {
    AnswerAck(Some(f), b).sent == Some(Packet(if b == 0xFFFF then 0 else b + 1, Slice(f.content, 512 * b)))
  }

  /** Whatever the file holds, the answer is right exactly when the number is below 0x8000, or the position is
      the one asked for, or both lie past the end. */
  lemma RightlyAnsweredExactlyWhen(n: nat, pos: nat, b: int)
    requires 0 <= b < 0x1_0000
    ensures (forall content: seq<byte> | |content| == n :: AnswersRightly(Stream(content, pos), b))
       <==> b < 0x8000 || pos == 512 * b || (pos >= n && 512 * b >= n)
  {
    if b < 0x8000 || pos == 512 * b || (pos >= n && 512 * b >= n) {
      forall content: seq<byte> | |content| == n ensures AnswersRightly(Stream(content, pos), b) {
        AckAnswer(Stream(content, pos), b);
      }
    } else {
      var content := OneMark(n, if pos < 512 * b then pos else 512 * b);
      AckAnswer(Stream(content, pos), b);
      SlicesDiffer(content, pos, 512 * b);
      assert !AnswersRightly(Stream(content, pos), b);
    }
  }

  /** A file of zeros with a single one. */
  function OneMark(n: nat, at: nat): (content: seq<byte>)
    ensures |content| == n && forall i | 0 <= i < n :: content[i] == if i == at then 1 else 0
  {
    seq(n, i => if i == at then 1 else 0)
  }

  lemma SlicesDiffer(content: seq<byte>, p: nat, q: nat)
    requires p != q
    requires var low := if p < q then p else q; low < |content| && content == OneMark(|content|, low)
    ensures Slice(content, p) != Slice(content, q)
  {
    var low, high := if p < q then p else q, if p < q then q else p;
    assert Slice(content, low)[0] == 1;
    assert Slice(content, high) != [] ==> Slice(content, high)[0] == 0;
  }

  /** It does fail: acknowledging 0x8000 right after the request for a file of one block and a byte sends that
      byte, where nothing is left at 512 * 0x8000. */
  lemma LargeAckExample(content: seq<byte>)
    requires |content| == 513
    ensures AnswerAck(AnswerRequest(content).file, 0x8000).sent == Some(Packet(0x8001, content[512..]))
    ensures Slice(content, 512 * 0x8000) == [] != content[512..]
  {
  }

  ghost predicate AreNumbers(acks: seq<int>) {
    forall i | 0 <= i < |acks| :: 0 <= acks[i] < 0x1_0000
  }

  /** All packets sent in answer to a stream of acknowledgements, and the file afterwards. */
  function AnswerAll(file: Option<Stream>, acks: seq<int>): (Option<Stream>, seq<Option<Packet>>)
    requires AreNumbers(acks)
    decreases acks
  {
    if acks == [] then (file, [])
    else
      var r := AnswerAck(file, acks[0]);
      var (end, rest) := AnswerAll(r.file, acks[1..]);
      (end, [r.sent] + rest)
  }

  /** Each answer to a number below 0x8000 is the slice that number asks for, and the next number. */
  ghost predicate AnswersAreSlices(file: Option<Stream>, acks: seq<int>, sent: seq<Option<Packet>>)
    requires |sent| == |acks|
  {
    forall i | 0 <= i < |acks| && sent[i].Some? && 0 <= acks[i] < 0x8000 ::
      file.Some? && sent[i].value == Packet(acks[i] + 1, Slice(file.value.content, 512 * acks[i]))
  }

  /** Before any packet only full packets were sent, one for each acknowledgement. */
  ghost predicate NothingAfterShort(sent: seq<Option<Packet>>) {
    forall i, j | 0 <= i < j < |sent| && sent[j].Some? :: sent[i].Some? && |sent[i].value.payload| == 512
  }

  /** Whatever acknowledgements arrive, in whatever order, the answers are right, and after a short packet
      nothing is sent any more. */
  lemma {:induction false} AnyStreamOfAcks(file: Option<Stream>, acks: seq<int>)
    requires AreNumbers(acks)
    ensures var sent := AnswerAll(file, acks).1;
      && |sent| == |acks|
      && AnswersAreSlices(file, acks, sent)
      && NothingAfterShort(sent)
      && (forall i | 0 <= i < |acks| && sent[i].None? :: file.None? || i > 0)
    decreases |acks|
  {
    if acks != [] {
      var r := AnswerAck(file, acks[0]);
      var rest := AnswerAll(r.file, acks[1..]).1;
      AnyStreamOfAcks(r.file, acks[1..]);
      FirstAnswer(file, acks[0]);
      if r.file.None? {
        ClosedAnswersNothing(acks[1..]);
      }
      AnswerBefore(file, acks[0], r, acks[1..], rest);
      assert acks == [acks[0]] + acks[1..];
    }
  }

  /** Repeating an acknowledgement below 0x8000, at any later time, repeats the packet or is not answered. */
  lemma RepeatedAckRepeatsPacket(file: Option<Stream>, acks: seq<int>, i: nat, j: nat)
    requires AreNumbers(acks) && i < j < |acks| && acks[i] == acks[j] < 0x8000
    ensures var sent := AnswerAll(file, acks).1;
      |sent| == |acks| && (sent[j].Some? ==> sent[i] == sent[j] && IsFull(sent[i].value))
  {
    AnyStreamOfAcks(file, acks);
  }

  /** One answer: the file stays the same and open only after a full packet. */
  lemma FirstAnswer(file: Option<Stream>, b: int)
    requires 0 <= b < 0x1_0000
    ensures var r := AnswerAck(file, b);
      && AnswersAreSlices(file, [b], [r.sent])
      && (file.Some? ==> r.sent.Some?)
      && (r.file.Some? ==> file.Some? && r.file.value.content == file.value.content && |r.sent.value.payload| == 512)
  {
    if file.Some? {
      AckAnswer(file.value, b);
    }
  }

  lemma AnswerBefore(file: Option<Stream>, b: int, r: Reply, acks: seq<int>, rest: seq<Option<Packet>>)
    requires |rest| == |acks| && AnswersAreSlices(r.file, acks, rest) && NothingAfterShort(rest)
    requires AnswersAreSlices(file, [b], [r.sent])
    requires if r.file.Some? then
        && file.Some? && r.file.value.content == file.value.content
        && r.sent.Some? && |r.sent.value.payload| == 512
      else forall i | 0 <= i < |rest| :: rest[i].None?
    ensures AnswersAreSlices(file, [b] + acks, [r.sent] + rest) && NothingAfterShort([r.sent] + rest)
  {
    var sent := [r.sent] + rest;
    assert sent[0] == [r.sent][0];
    assert forall i | 0 < i < |sent| :: sent[i] == rest[i - 1] && ([b] + acks)[i] == acks[i - 1];
  }

  lemma {:induction false} ClosedAnswersNothing(acks: seq<int>)
    requires AreNumbers(acks)
    ensures AnswerAll(None, acks).0 == None && |AnswerAll(None, acks).1| == |acks|
    ensures forall i | 0 <= i < |acks| :: AnswerAll(None, acks).1[i] == None
    decreases |acks|
  {
    if acks != [] {
      ClosedAnswersNothing(acks[1..]);
    }
  }

  // ---------- Lock-step transfers, sections 2 and 6 of RFC 1350 ----------

  datatype Transfer = Transfer(file: Option<Stream>, packets: seq<Packet>)

  /** A read request answered, and then k acknowledgements, each of the newest packet. */
  function LockStep(content: seq<byte>, k: nat): (t: Transfer)
    ensures t.packets != [] && 0 <= t.packets[|t.packets| - 1].number < 0x1_0000
  {
    if k == 0 then
      var r := AnswerRequest(content);
      Transfer(r.file, [r.sent.value])
    else
      var t := LockStep(content, k - 1);
      if t.file == None then t
      else
        var r := AnswerAck(t.file, t.packets[|t.packets| - 1].number);
        Transfer(r.file, t.packets + [r.sent.value])
  }

  function Payloads(packets: seq<Packet>): seq<byte> {
    if packets == [] then [] else Payloads(packets[..|packets| - 1]) + packets[|packets| - 1].payload
  }

  /** The block that step k asks for: the numbers come round after 0xFFFF. */
  function Index(k: nat): (i: nat)
    ensures i <= k && i < 0x1_0000
    ensures k < 0x1_0000 ==> i == k
  {
    k % 0x1_0000
  }

  lemma IndexSteps(k: nat)
    requires k > 0
    ensures Index(k) == NextNumber(Index(k - 1))
  {
  }

  function Expected(content: seq<byte>, k: nat): Packet {
    Packet(NextNumber(Index(k)), Slice(content, 512 * Index(k)))
  }

  predicate IsFull(p: Packet) { |p.payload| == 512 }

  /** Step k is reached: all blocks between the first and the k-th were full. */
  predicate Reached(content: seq<byte>, k: nat) {
    k <= 1 || 512 * 0x1_0000 <= |content| || 512 * k <= |content|
  }

  /** As long as the transfer runs, step k sends the expected packet and leaves the file right behind it.
      Between 0x8000 and 0xFFFF every seek fails, and the sequential read is what keeps the order. */
  lemma {:induction false} TransferRuns(content: seq<byte>, k: nat)
    requires Reached(content, k)
    ensures var t := LockStep(content, k);
      && |t.packets| == k + 1 && t.packets[k] == Expected(content, k)
      && (k > 0 ==> t.packets[..k] == LockStep(content, k - 1).packets)
      && t.file == (if k == 0 || IsFull(Expected(content, k)) then Some(Behind(content, k)) else None)
    decreases k
  {
    if k > 0 {
      EarlierBlockIsFull(content, k);
      TransferRuns(content, k - 1);
      NextPacket(content, k);
    }
  }

  /** The file right behind the packet of step k. */
  function Behind(content: seq<byte>, k: nat): Stream {
    Stream(content, 512 * Index(k) + |Expected(content, k).payload|)
  }

  lemma EarlierBlockIsFull(content: seq<byte>, k: nat)
    requires k > 0 && Reached(content, k)
    ensures Reached(content, k - 1)
    ensures k > 1 ==> IsFull(Expected(content, k - 1))
  {
  }

  lemma NextPacket(content: seq<byte>, k: nat)
    requires k > 0 && (k > 1 ==> IsFull(Expected(content, k - 1)))
    ensures AnswerAck(Some(Behind(content, k - 1)), Expected(content, k - 1).number)
         == Reply(if IsFull(Expected(content, k)) then Some(Behind(content, k)) else None, Some(Expected(content, k)))
  {
    var b := NextNumber(Index(k - 1));
    IndexSteps(k);
    AckAnswer(Behind(content, k - 1), b);
    assert b >= 0x8000 ==> k > 1 && Behind(content, k - 1).pos == 512 * b;
  }

  /** How many DATA packets a transfer takes: a file below one block gets an extra empty one. */
  function PacketCount(n: nat): nat {
    if n < 512 then 2 else n / 512 + 1
  }

  /** The client has every packet of the file, in order, and the server has closed it. */
  ghost predicate Complete(content: seq<byte>, t: Transfer) {
    && t.file == None
    && |t.packets| == PacketCount(|content|)
    && (forall i | 0 <= i < |t.packets| ::
          t.packets[i] == Packet(if i == 0xFFFF then 0 else i + 1, Slice(content, 512 * i)))
    && Payloads(t.packets) == content
  }

  /** Below 512 * 65536 bytes the transfer stops after exactly PacketCount packets, numbered 1, 2, 3 and so
      on with wrap-around, and their payloads are the file. */
  lemma TransferDelivers(content: seq<byte>)
    requires |content| < 512 * 0x1_0000
    ensures var k := PacketCount(|content|) - 1;
      && LockStep(content, k - 1).file.Some?
      && Complete(content, LockStep(content, k))
  {
    var k := PacketCount(|content|) - 1;
    StopsAtCount(content, k);
    PacketsAreExpected(content, k);
    CompleteWhenExpected(content, LockStep(content, k));
  }

  lemma CompleteWhenExpected(content: seq<byte>, t: Transfer)
    requires t.file == None && |t.packets| == PacketCount(|content|) <= 0x1_0000
    requires forall i | 0 <= i < |t.packets| :: t.packets[i] == Expected(content, i)
    ensures Complete(content, t)
  {
    assert forall i | 0 <= i < |t.packets| :: Index(i) == i;
    SlicesMakePrefix(content, t.packets);
  }

  lemma StopsAtCount(content: seq<byte>, k: nat)
    requires |content| < 512 * 0x1_0000 && k == PacketCount(|content|) - 1
    ensures 1 <= k < 0x1_0000 && Reached(content, k)
    ensures LockStep(content, k - 1).file.Some? && LockStep(content, k).file == None
  {
    TransferRuns(content, k);
    EarlierBlockIsFull(content, k);
    TransferRuns(content, k - 1);
  }

  lemma OneMorePacket(content: seq<byte>, before: seq<Packet>, packets: seq<Packet>)
    requires packets != [] && packets[..|packets| - 1] == before
    requires forall i | 0 <= i < |before| :: before[i] == Expected(content, i)
    requires packets[|packets| - 1] == Expected(content, |before|)
    ensures forall i | 0 <= i < |packets| :: packets[i] == Expected(content, i)
  {
    assert forall i | 0 <= i < |before| :: packets[i] == before[i];
  }

  lemma {:induction false} PacketsAreExpected(content: seq<byte>, k: nat)
    requires Reached(content, k)
    ensures |LockStep(content, k).packets| == k + 1
    ensures forall i | 0 <= i <= k :: LockStep(content, k).packets[i] == Expected(content, i)
  {
    TransferRuns(content, k);
    if k > 0 {
      EarlierBlockIsFull(content, k);
      PacketsAreExpected(content, k - 1);
      OneMorePacket(content, LockStep(content, k - 1).packets, LockStep(content, k).packets);
    }
  }

  function Prefix(content: seq<byte>, n: nat): seq<byte> {
    if n <= |content| then content[..n] else content
  }

  lemma PrefixGrows(content: seq<byte>, n: nat)
    requires n <= |content|
    ensures Prefix(content, n + 512) == Prefix(content, n) + Slice(content, n)
  {
  }

  /** Consecutive slices from the start put a prefix together; a last one past the end adds nothing. */
  lemma {:induction false} SlicesMakePrefix(content: seq<byte>, p: seq<Packet>)
    requires |p| <= 2 || 512 * (|p| - 1) <= |content|
    requires forall i | 0 <= i < |p| :: p[i].payload == Slice(content, 512 * i)
    ensures Payloads(p) == Prefix(content, 512 * |p|)
    decreases |p|
  {
    if p != [] {
      var k := |p| - 1;
      SlicesMakePrefix(content, p[..k]);
      LastPayload(p, p[..k]);
      if 512 * k <= |content| {
        PrefixGrows(content, 512 * k);
      }
    }
  }

  lemma LastPayload(p: seq<Packet>, q: seq<Packet>)
    requires p != [] && p[..|p| - 1] == q
    ensures Payloads(p) == Payloads(q) + p[|p| - 1].payload
  {
  }

  /** Once the transfer has stopped, acknowledging further changes nothing. */
  lemma {:induction false} ClosedStaysClosed(content: seq<byte>, k: nat, n: nat)
    requires LockStep(content, k).file == None && k <= n
    ensures LockStep(content, n) == LockStep(content, k)
  {
    var run := (m: nat) => LockStep(content, m);
    forall m: nat | run(m).file == None ensures run(m + 1) == run(m) {
      ClosedStep(content, m);
    }
    ClosedRunStays(run, k, n);
  }

  lemma ClosedStep(content: seq<byte>, k: nat)
    requires LockStep(content, k).file == None
    ensures LockStep(content, k + 1) == LockStep(content, k)
  {
  }

  lemma {:induction false} ClosedRunStays(run: nat -> Transfer, k: nat, n: nat)
    requires run(k).file == None && k <= n && forall m: nat | run(m).file == None :: run(m + 1) == run(m)
    ensures run(n) == run(k)
    decreases n
  {
    if k < n {
      ClosedRunStays(run, k, n - 1);
      assert run((n - 1) + 1) == run(n - 1);
    }
  }

  /** From 512 * 65536 bytes on the transfer never stops: the number after 0xFFFF is 0, and acknowledging 0
      starts the file over. */
  lemma TransferLoops(content: seq<byte>, k: nat)
    requires |content| >= 512 * 0x1_0000
    ensures LockStep(content, k).file.Some?
    ensures |LockStep(content, k).packets| == k + 1 && LockStep(content, k).packets[k] == Expected(content, k)
    ensures Expected(content, k + 0x1_0000) == Expected(content, k)
  {
    TransferRuns(content, k);
  }

  ghost predicate Delivered(content: seq<byte>) {
    exists k: nat :: LockStep(content, k).file == None && Payloads(LockStep(content, k).packets) == content
  }

  /** A lock-step transfer ends with the whole file delivered exactly when the file is below 32 MiB. */
  lemma DeliveredExactlyBelowLimit(content: seq<byte>)
    ensures Delivered(content) <==> |content| < 512 * 0x1_0000
  {
    if |content| < 512 * 0x1_0000 {
      TransferDelivers(content);
    } else if k: nat :| LockStep(content, k).file == None {
      TransferLoops(content, k);
    }
  }
}
