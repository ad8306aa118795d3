/** The handlers of tftp_server.c over their buffers and the global file, tied to the packets of Tftp. */
module TftpServer {
  import opened Options
  import opened ByteStrings
  import opened Tftp

  const RRQ: int := 1

  class Server {
    /** The files fopen finds. */
    const disk: map<seq<byte>, seq<byte>>
    var file: Option<Stream>

    constructor (disk: map<seq<byte>, seq<byte>>)
      ensures this.disk == disk && file == None
    {
      this.disk := disk;
      file := None;
    }

    /** fread(buf, 1, 512, file). */
    method FRead(buf: array<byte>) returns (n: nat)
      requires file.Some? && buf.Length >= 512
      modifies this`file, buf
      ensures n <= 512 && buf[..n] == Slice(old(file).value.content, old(file).value.pos)
      ensures file == Some(old(file).value.(pos := old(file).value.pos + n))
    {
      var data := Slice(file.value.content, file.value.pos);
      n := |data|;
      Memcpy(buf, 0, data);
      file := Some(file.value.(pos := file.value.pos + n));
    }

    /** Writes a DATA packet into a buffer that has room for it, with a moving index. */
    static method MakeData(dst: array<byte>, block: int, src: array<byte>, dataLen: nat) returns (index: nat)
      requires -0x8000 <= block < 0x8000
      requires dst != src && dataLen <= src.Length && dataLen + 4 <= dst.Length
      modifies dst
      ensures index == dataLen + 4 && dst[..index] == Encode(block, src[..dataLen])
    {
      index := 0;
      Memcpy(dst, index, [0, 3]);
      index := index + 2;
      Memcpy(dst, index, [High(block), Low(block)]);
      index := index + 2;
      Memcpy(dst, index, src[..dataLen]);
      index := index + dataLen;
    }

    static method Memcpy(dst: array<byte>, at: nat, bytes: seq<byte>)
      requires at + |bytes| <= dst.Length
      modifies dst
      ensures dst[..at + |bytes|] == old(dst[..at]) + bytes
    {
      for i := 0 to |bytes|
        invariant dst[..at + i] == old(dst[..at]) + bytes[..i]
      {
        dst[at + i] := bytes[i];
      }
    }

    /** A pointer walk to the next NUL, which is not past end. */
    static method ReadString(inBuf: seq<byte>, start: nat, ghost end: nat) returns (s: seq<byte>, p: nat)
      requires start <= end < |inBuf| && inBuf[end] == 0
      ensures start <= p <= end && inBuf[p] == 0 && s == inBuf[start..p] && 0 !in s
    {
      p, s := start, [];
      while inBuf[p] != 0
        invariant start <= p <= end && s == inBuf[start..p] && 0 !in s
        decreases end - p
      {
        assert inBuf[start..p + 1] == inBuf[start..p] + [inBuf[p]];
        s := s + [inBuf[p]];
        p := p + 1;
      }
    }

    /** The two NUL-terminated strings after the opcode of a request. */
    static method ParseRequest(inBuf: seq<byte>) returns (name: seq<byte>, mode: seq<byte>)
      requires HasTwoStrings(inBuf)
      ensures 0 !in name && 0 !in mode
      ensures name + [0] + mode + [0] <= inBuf[2..]
    {
      ghost var i, j :| 2 <= i < j < |inBuf| && inBuf[i] == 0 && inBuf[j] == 0;
      var p, q;
      name, p := ReadString(inBuf, 2, i);
      mode, q := ReadString(inBuf, p + 1, j);
      assert inBuf[2..] == name + [0] + mode + [0] + inBuf[q + 1..];
    }

    /** handle_RRQ: opens the named file and answers with its first block. */
    method HandleRRQ(inBuf: seq<byte>) returns (sent: Option<seq<byte>>, ghost name: seq<byte>)
      requires HasTwoStrings(inBuf)
      modifies this`file
      ensures 0 !in name && name + [0] <= inBuf[2..]
      ensures name !in disk ==> file == None && sent == None
      ensures name in disk ==>
        var r := AnswerRequest(disk[name]);
        file == r.file && sent.Some? && |sent.value| >= 4 && Decode(sent.value) == (3, r.sent.value)
    {
      var fileName, mode := ParseRequest(inBuf);
      name := fileName;
      if fileName !in disk {
        file := None;
        return None, name;
      }
      file := Some(Stream(disk[fileName], 0));
      var buf := new byte[512](_ => 0);
      var outBuf := new byte[516](_ => 0);
      var readLen := FRead(buf);
      var len := MakeData(outBuf, 1, buf, readLen);
      DecodesAsSent(1, buf[..readLen]);
      return Some(outBuf[..len]), name;
    }

    /** handle_ACK. */
    method HandleAck(inBuf: seq<byte>, outBuf: array<byte>) returns (len: nat)
      requires |inBuf| >= 4 && outBuf.Length >= 516
      modifies this`file, outBuf
      ensures var r := AnswerAck(old(file), inBuf[2] as int * 256 + inBuf[3] as int);
        && file == r.file
        && (r.sent.None? ==> len == 0)
        && (r.sent.Some? ==> 4 <= len <= outBuf.Length && Decode(outBuf[..len]) == (3, r.sent.value))
    {
      if file.None? {
        return 0;
      }
      var block := ToShort(Word(inBuf[2], inBuf[3]));
      file := Some(Seek(file.value, 512 * block));
      var buf := new byte[512](_ => 0);
      var readLen := FRead(buf);
      if readLen < 512 {
        file := None;
      }
      len := MakeData(outBuf, ToShort(block + 1), buf, readLen);
      DecodesAsSent(ToShort(block + 1), buf[..readLen]);
    }

    /** handle_req: only acknowledgements are answered. */
    method HandleReq(inBuf: seq<byte>, outBuf: array<byte>) returns (index: nat)
      requires |inBuf| >= 4 && outBuf.Length >= 516
      modifies this`file, outBuf
      ensures inBuf[..2] != [0, 4] ==> index == 0 && file == old(file) && outBuf[..] == old(outBuf[..])
      ensures inBuf[..2] == [0, 4] ==>
        var r := AnswerAck(old(file), inBuf[2] as int * 256 + inBuf[3] as int);
        && file == r.file
        && (r.sent.None? ==> index == 0)
        && (r.sent.Some? ==> 4 <= index <= outBuf.Length && Decode(outBuf[..index]) == (3, r.sent.value))
    {
      index := 0;
      if Word(inBuf[0], inBuf[1]) == ACK {
        index := HandleAck(inBuf, outBuf);
      }
    }

    /** Requests one after the other, in one answer buffer. Whatever else is among them, the answers to the
        acknowledgements are those of the stream of their numbers; an empty answer is none. */
    method HandleStream(inBufs: seq<seq<byte>>, outBuf: array<byte>) returns (answers: seq<seq<byte>>)
      requires AreHeaders(inBufs) && outBuf.Length >= 516
      modifies this`file, outBuf
      ensures var (end, sent) := AnswerAll(old(file), AckNumbers(inBufs)); file == end && Carry(answers, sent)
    {
      answers := [];
      ghost var sent: seq<Option<Packet>> := [];
      ghost var start, acks := file, AckNumbers(inBufs);
      assert inBufs[0..] == inBufs;
      for k := 0 to |inBufs|
        invariant Carry(answers, sent) && Leads(start, acks, sent, file, AckNumbers(inBufs[k..]))
      {
        AckNumbersUnfold(inBufs, k);
        answers, sent := HandleNext(inBufs[k], outBuf, answers, start, acks, sent, AckNumbers(inBufs[k + 1..]));
      }
    }

    method HandleNext(inBuf: seq<byte>, outBuf: array<byte>, answers: seq<seq<byte>>, ghost start: Option<Stream>,
                      ghost acks: seq<int>, ghost sent: seq<Option<Packet>>, ghost rest: seq<int>)
        returns (answers': seq<seq<byte>>, ghost sent': seq<Option<Packet>>)
      requires |inBuf| >= 4 && outBuf.Length >= 516 && AreNumbers(acks) && AreNumbers(rest)
      requires AreNumbers(AckBefore(inBuf, rest)) && Leads(start, acks, sent, file, AckBefore(inBuf, rest))
      requires Carry(answers, sent)
      modifies this`file, outBuf
      ensures Carry(answers', sent') && Leads(start, acks, sent', file, rest)
    {
      ghost var before := file;
      var index := HandleReq(inBuf, outBuf);
      answers', sent' := answers, sent;
      if inBuf[..2] == [0, 4] {
        ghost var b := inBuf[2] as int * 256 + inBuf[3] as int;
        LeadsOn(start, acks, sent, before, b, rest);
        sent' := sent + [AnswerAck(before, b).sent];
        answers' := answers + [outBuf[..index]];
      }
    }

    /** A read request, and then acknowledgements, each made from the newest packet: the handlers send the
        packets of the lock-step transfer, and so the whole file when it is short enough. */
    method Transfer(inBuf: seq<byte>, steps: nat, outBuf: array<byte>)
        returns (sent: seq<seq<byte>>, ghost name: seq<byte>)
      requires HasTwoStrings(inBuf) && outBuf.Length >= 516
      modifies this`file, outBuf
      ensures 0 !in name && name + [0] <= inBuf[2..]
      ensures name !in disk ==> file == None && sent == []
      ensures name in disk ==>
        var t := LockStep(disk[name], steps); file == t.file && AllCarry(sent, t.packets)
    {
      var first;
      first, name := HandleRRQ(inBuf);
      if first.None? {
        return [], name;
      }
      ghost var content := disk[name];
      ghost var run := (k: nat) => LockStep(content, k);
      forall k: nat ensures IsNext(run(k), run(k + 1)) {
        LockStepGoesOn(content, k);
      }
      sent := AcknowledgeEach(first.value, steps, outBuf, run);
    }

    /** The acknowledgements after the first packet. */
    method AcknowledgeEach(first: seq<byte>, steps: nat, outBuf: array<byte>, ghost run: nat -> Transfer)
        returns (sent: seq<seq<byte>>)
      requires outBuf.Length >= 516
      requires file == run(0).file && AllCarry([first], run(0).packets)
      requires forall k: nat :: IsNext(run(k), run(k + 1))
      modifies this`file, outBuf
      ensures file == run(steps).file && AllCarry(sent, run(steps).packets)
    {
      sent := [first];
      for k := 0 to steps
        invariant file == run(k).file && AllCarry(sent, run(k).packets)
      {
        ghost var t := run(k);
        assert IsNext(t, run(k + 1));
        var answer := Acknowledge(sent[|sent| - 1], t.packets[|sent| - 1], outBuf);
        AnswerCarries(sent, t, answer);
        if answer != [] {
          sent := sent + [answer];
        }
      }
    }

    /** An acknowledgement of the packet just received. */
    method Acknowledge(newest: seq<byte>, ghost p: Packet, outBuf: array<byte>) returns (answer: seq<byte>)
      requires Carries(newest, Some(p)) && outBuf.Length >= 516
      modifies this`file, outBuf
      ensures var r := AnswerAck(old(file), p.number); file == r.file && Carries(answer, r.sent)
    {
      var index := HandleReq([0, 4] + newest[2..4], outBuf);
      answer := outBuf[..index];
    }

    /** handle_new_connection: the read-request case falls through to the write-request case, which does
        nothing. */
    method HandleNewConnection(inBuf: seq<byte>) returns (sent: Option<seq<byte>>)
      requires |inBuf| >= 2 && (inBuf[..2] == [0, 1] ==> HasTwoStrings(inBuf))
      modifies this`file
      ensures inBuf[..2] != [0, 1] ==> sent == None && file == old(file)
      ensures inBuf[..2] == [0, 1] ==> (sent == None <==> file == None)
      ensures sent.Some? ==> exists name | name in disk ::
        && 0 !in name && name + [0] <= inBuf[2..]
        && file == AnswerRequest(disk[name]).file
        && |sent.value| >= 4 && Decode(sent.value) == (3, AnswerRequest(disk[name]).sent.value)
    {
      sent := None;
      if Word(inBuf[0], inBuf[1]) == RRQ {
        ghost var name;
        sent, name := HandleRRQ(inBuf);
      }
    }
  }

  predicate AreHeaders(inBufs: seq<seq<byte>>) {
    forall k | 0 <= k < |inBufs| :: |inBufs[k]| >= 4
  }

  /** The number of an acknowledgement, and then the rest; another request has none. */
  function AckBefore(b: seq<byte>, rest: seq<int>): (acks: seq<int>)
    requires |b| >= 4
    ensures AreNumbers(rest) ==> AreNumbers(acks)
  {
    if b[..2] == [0, 4] then [b[2] as int * 256 + b[3] as int] + rest else rest
  }

  /** The numbers of the acknowledgements among the requests. */
  function AckNumbers(inBufs: seq<seq<byte>>): (acks: seq<int>)
    requires AreHeaders(inBufs)
    ensures AreNumbers(acks)
  {
    if inBufs == [] then [] else AckBefore(inBufs[0], AckNumbers(inBufs[1..]))
  }

  lemma AckNumbersUnfold(inBufs: seq<seq<byte>>, k: nat)
    requires AreHeaders(inBufs) && k < |inBufs|
    ensures AckNumbers(inBufs[k..]) == AckBefore(inBufs[k], AckNumbers(inBufs[k + 1..]))
  {
    assert inBufs[k..][1..] == inBufs[k + 1..];
  }

  /** Answering acks from start has sent what is in sent, and goes on from file with the rest. */
  ghost predicate Leads(start: Option<Stream>, acks: seq<int>, sent: seq<Option<Packet>>,
                        file: Option<Stream>, rest: seq<int>)
    requires AreNumbers(acks) && AreNumbers(rest)
  {
    && AnswerAll(start, acks).0 == AnswerAll(file, rest).0
    && AnswerAll(start, acks).1 == sent + AnswerAll(file, rest).1
  }

  lemma LeadsOn(start: Option<Stream>, acks: seq<int>, sent: seq<Option<Packet>>,
                file: Option<Stream>, b: int, rest: seq<int>)
    requires AreNumbers(acks) && AreNumbers([b] + rest) && AreNumbers(rest) && 0 <= b < 0x1_0000
    requires Leads(start, acks, sent, file, [b] + rest)
    ensures Leads(start, acks, sent + [AnswerAck(file, b).sent], AnswerAck(file, b).file, rest)
  {
    assert ([b] + rest)[1..] == rest;
  }

  /** The bytes carry the packets; nothing is sent where there is none. */
  predicate Carry(answers: seq<seq<byte>>, sent: seq<Option<Packet>>) {
    |answers| == |sent| && forall i | 0 <= i < |sent| :: Carries(answers[i], sent[i])
  }

  /** One packet in each. */
  predicate AllCarry(answers: seq<seq<byte>>, packets: seq<Packet>) {
    |answers| == |packets| && forall i | 0 <= i < |packets| :: Carries(answers[i], Some(packets[i]))
  }

  /** The newest packet is acknowledged, unless the transfer has stopped. */
  predicate IsNext(t: Transfer, t': Transfer) {
    && t.packets != [] && 0 <= t.packets[|t.packets| - 1].number < 0x1_0000
    && t' == if t.file == None then t
             else
               var r := AnswerAck(t.file, t.packets[|t.packets| - 1].number);
               Transfer(r.file, t.packets + [r.sent.value])
  }

  lemma LockStepGoesOn(content: seq<byte>, k: nat)
    ensures IsNext(LockStep(content, k), LockStep(content, k + 1))
  {
  }

  lemma AnswerCarries(sent: seq<seq<byte>>, t: Transfer, answer: seq<byte>)
    requires AllCarry(sent, t.packets) && t.packets != [] && 0 <= t.packets[|t.packets| - 1].number < 0x1_0000
    requires Carries(answer, AnswerAck(t.file, t.packets[|t.packets| - 1].number).sent)
    ensures (answer == [] <==> t.file == None)
    ensures t.file != None ==>
      AllCarry(sent + [answer], t.packets + [AnswerAck(t.file, t.packets[|t.packets| - 1].number).sent.value])
  {
  }

  /** What HandleStream sends obeys the laws of any stream: an answer to a number below 0x8000 is the next number
      and the slice asked for, and before it every acknowledgement was answered. */
  lemma AnswerIsSlice(file: Option<Stream>, acks: seq<int>, answers: seq<seq<byte>>, j: nat)
    requires AreNumbers(acks) && Carry(answers, AnswerAll(file, acks).1)
    requires j < |acks| == |answers| && acks[j] < 0x8000 && answers[j] != []
    ensures file.Some? && |answers[j]| >= 4
    ensures Decode(answers[j]) == (3, Packet(acks[j] + 1, Slice(file.value.content, 512 * acks[j])))
    ensures forall i | 0 <= i < j :: answers[i] != []
  {
    AnyStreamOfAcks(file, acks);
    var sent := AnswerAll(file, acks).1;
    assert Carries(answers[j], sent[j]);
    forall i | 0 <= i < j ensures answers[i] != [] {
      assert Carries(answers[i], sent[i]) && sent[i].Some?;
    }
  }

  /** So a repeated acknowledgement that is answered gets the same packet again. */
  lemma RepeatIsAnsweredAlike(file: Option<Stream>, acks: seq<int>, answers: seq<seq<byte>>, i: nat, j: nat)
    requires AreNumbers(acks) && Carry(answers, AnswerAll(file, acks).1)
    requires i <= j < |acks| == |answers| && acks[i] == acks[j] < 0x8000 && answers[j] != []
    ensures |answers[i]| >= 4 && |answers[j]| >= 4 && Decode(answers[i]) == Decode(answers[j])
  {
    AnswerIsSlice(file, acks, answers, j);
    AnswerIsSlice(file, acks, answers, i);
  }

  predicate Carries(answer: seq<byte>, sent: Option<Packet>) {
    match sent
    case None => answer == []
    case Some(p) => |answer| >= 4 && Decode(answer) == (3, p)
  }

  ghost predicate HasTwoStrings(inBuf: seq<byte>) {
    |inBuf| >= 2 && exists i, j | 2 <= i < j < |inBuf| :: inBuf[i] == 0 && inBuf[j] == 0
  }
}
