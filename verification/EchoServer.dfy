/** The loops of echo/epoll/echo_server.cpp over its session map and its one read buffer. Whatever the server
    does is a run of Echo. */
module EchoServer {
  import opened ByteStrings
  import opened Echo

  /** What a read on a non-blocking socket returns; Data carries what the write that may follow takes. */
  datatype ReadResult = Data(bytes: Bytes, nwrite: nat) | WouldBlock | Eof | Error

  ghost predicate Possible(script: seq<ReadResult>) {
    forall i | 0 <= i < |script| && script[i].Data? ::
      1 <= |script[i].bytes| <= 1024 && script[i].nwrite <= |script[i].bytes| / 2
  }

  /** The connection after the reads of one readable event: they go on, also after a hard error, until one
      would block or reaches the end. */
  function ReadAll(c: Connection, script: seq<ReadResult>): Connection
    requires Possible(script)
    decreases |script|
  {
    if script == [] then c
    else
      match script[0]
      case Data(bytes, nwrite) => ReadAll(AfterRead(c, bytes, nwrite), script[1..])
      case Error => ReadAll(AfterReadError(c), script[1..])
      case WouldBlock => c
      case Eof => c
  }

  lemma ReadAllUnfolds(c: Connection, script: seq<ReadResult>, k: nat)
    requires k < |script| && Possible(script)
    ensures ReadAll(c, script[k..]) ==
      match script[k]
      case Data(bytes, nwrite) => ReadAll(AfterRead(c, bytes, nwrite), script[k + 1..])
      case Error => ReadAll(AfterReadError(c), script[k + 1..])
      case WouldBlock => c
      case Eof => c
  {
    assert script[k..][1..] == script[k + 1..];
  }

  /** The first n results of the script have become the events after before, one for each. */
  ghost predicate Took(before: seq<Event>, after: seq<Event>, fd: int, script: seq<ReadResult>, n: nat) {
    && n <= |script| && |after| == |before| + n && before <= after
    && forall i | 0 <= i < n ::
         match script[i]
         case Data(bytes, nwrite) => after[|before| + i] == Read(fd, bytes, nwrite)
         case Error => after[|before| + i] == ReadError(fd)
         case WouldBlock => false
         case Eof => false
  }

  /** All results up to the first that stops the loop, and that is not an error. */
  ghost predicate HasTaken(before: seq<Event>, after: seq<Event>, fd: int, script: seq<ReadResult>) {
    exists n: nat :: Took(before, after, fd, script, n) && (n < |script| ==> script[n].WouldBlock? || script[n].Eof?)
  }

  class Server {
    var sessionMap: map<int, seq<Bytes>>
    const readbuf: array<byte>
    ghost var run: Run

    ghost function Connections(): Connections
      requires IsRun(run)
      reads this
    {
      Last(run)
    }

    /** The session map holds the queues of the connections that have an entry. */
    ghost predicate Valid()
      reads this
    {
      && readbuf.Length == 1024
      && IsRun(run)
      && Mirrors(sessionMap, Last(run))
    }

    static ghost predicate Mirrors(sessionMap: map<int, seq<Bytes>>, cs: Connections) {
      && (forall fd | fd in sessionMap :: fd in cs && cs[fd].hasEntry && sessionMap[fd] == cs[fd].queue)
      && (forall fd | fd in cs && cs[fd].hasEntry :: fd in sessionMap)
    }

    constructor ()
      ensures Valid() && Connections() == map[] && fresh(readbuf)
    {
      sessionMap := map[];
      readbuf := new byte[1024](_ => 0);
      run := Run([map[]], []);
    }

    /** The step the loop has just taken. */
    ghost method Record(ev: Event)
      requires IsRun(run) && Enabled(Last(run), ev)
      modifies this`run
      ensures IsRun(run) && Last(run) == Next(old(Last(run)), ev)
      ensures run.events == old(run.events) + [ev]
    {
      run := RunGrows(run, ev);
    }

    method OnAccept(fd: int)
      requires Valid() && fd !in Connections()
      modifies this
      ensures Valid() && Connections() == Next(old(Connections()), Accept(fd))
      ensures run.events == old(run.events) + [Accept(fd)]
    {
      Record(Accept(fd));
    }

    /** Copies what a read delivers into the buffer. */
    method Fill(bytes: Bytes)
      requires |bytes| <= readbuf.Length
      modifies readbuf
      ensures readbuf[..|bytes|] == bytes
    {
      for i := 0 to |bytes|
        invariant readbuf[..i] == bytes[..i]
      {
        readbuf[i] := bytes[i];
      }
    }

    /** Reads until the socket would block or reaches its end; a hard error does not stop the loop. */
    method OnReadable(fd: int, script: seq<ReadResult>)
      requires Valid() && fd in Connections() && Possible(script)
      modifies this, readbuf
      ensures Valid() && Connections() == old(Connections())[fd := ReadAll(old(Connections())[fd], script)]
      ensures HasTaken(old(run.events), run.events, fd, script)
    {
      var next := 0;
      ghost var events := run.events;
      ghost var start, c := Connections(), Connections()[fd];
      while next < |script|
        invariant Valid() && 0 <= next <= |script|
        invariant Connections() == start[fd := c]
        invariant ReadAll(start[fd], script) == ReadAll(c, script[next..])
        invariant Took(events, run.events, fd, script, next)
      {
        var r := script[next];
        ReadAllUnfolds(c, script, next);
        if r.WouldBlock? || r.Eof? {
          return;
        }
        if r.Error? {
          OnReadError(fd);
          c := AfterReadError(c);
        } else {
          HandleData(fd, r.bytes, r.nwrite);
          c := AfterRead(c, r.bytes, r.nwrite);
        }
        next := next + 1;
      }
    }

    /** A hard error erases the entry, whether there is one or not. */
    method OnReadError(fd: int)
      requires Valid() && fd in Connections()
      modifies this
      ensures Valid() && Connections() == Next(old(Connections()), ReadError(fd))
      ensures run.events == old(run.events) + [ReadError(fd)]
    {
      sessionMap := sessionMap - {fd};
      Record(ReadError(fd));
    }

    /** One successful read: echo half of it at once, or queue it behind what is waiting already. */
    method HandleData(fd: int, bytes: Bytes, nwrite: nat)
      requires Valid() && fd in Connections() && 1 <= |bytes| <= 1024 && nwrite <= |bytes| / 2
      modifies this, readbuf
      ensures Valid() && Connections() == Next(old(Connections()), Read(fd, bytes, nwrite))
      ensures run.events == old(run.events) + [Read(fd, bytes, nwrite)]
    {
      QueuesAreWellFormed(run, |run.events|, fd);
      var nread := |bytes|;
      Fill(bytes);
      if fd !in sessionMap {
        if nwrite != nread {
          assert readbuf[nwrite..nread] == bytes[nwrite..];
          sessionMap := sessionMap[fd := [readbuf[nwrite..nread]]];
        }
      } else {
        sessionMap := sessionMap[fd := sessionMap[fd] + [readbuf[..nread]]];
      }
      Record(Read(fd, bytes, nwrite));
    }

    /** One write of the front string; nothing happens without a map entry. */
    method OnWritable(fd: int, nwrite: int)
      requires Valid() && fd in Connections()
      requires fd in sessionMap ==> sessionMap[fd] != [] && -1 <= nwrite <= |sessionMap[fd][0]|
      modifies this
      ensures Valid()
      ensures Connections() ==
        if fd in old(sessionMap) then Next(old(Connections()), Flush(fd, nwrite)) else old(Connections())
      ensures run.events == old(run.events) + if fd in old(sessionMap) then [Flush(fd, nwrite)] else []
    {
      if fd !in sessionMap {
        return;
      }
      QueuesAreWellFormed(run, |run.events|, fd);
      var queue := sessionMap[fd];
      assert nwrite <= 1024;
      if AsSize(nwrite) < |queue[0]| {
        sessionMap := sessionMap[fd := [queue[0][AsSize(nwrite)..]] + queue[1..]];
      } else {
        sessionMap := sessionMap[fd := queue[1..]];
      }
      Record(Flush(fd, nwrite));
    }

    /** The session map is the unsent rest of what was received, for every connection that has an entry,
        exactly as long as nothing that drops bytes has happened to it. */
    lemma SessionMapIsUnsentRest(fd: int)
      requires Valid() && fd in sessionMap
      ensures var c := Connections()[fd];
        c.sent + Concat(sessionMap[fd]) == c.received
        <==> forall u | 0 <= u < |run.events| :: !IsLossy(run.states[u], run.events[u], fd)
    {
      EchoConserves(run, |run.events|, fd);
    }
  }
}
