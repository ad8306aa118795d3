/** The echo server in the words of its system calls: what reads delivered, what writes took, and which strings
    wait in between. */
module EchoInWords {
  import opened ByteStrings
  import opened Echo

  /** What a read on the descriptor delivered. */
  function Delivered(ev: Event, fd: int): Bytes {
    if ev.Read? && ev.fd == fd then ev.data else []
  }

  /** What a write on the descriptor took: the first write of a read without an entry, or a flush. */
  function Took(cs: Connections, ev: Event, fd: int): Bytes
    requires Enabled(cs, ev)
  {
    if ev.Read? && ev.fd == fd && !cs[fd].hasEntry then ev.data[..ev.nwrite]
    else if ev.Flush? && ev.fd == fd && ev.result >= 0 then cs[fd].queue[0][..ev.result]
    else []
  }

  /** How many bytes that was: the result of the write. */
  function Result(cs: Connections, ev: Event, fd: int): nat
    requires Enabled(cs, ev)
  {
    if ev.Read? && ev.fd == fd && !cs[fd].hasEntry then ev.nwrite
    else if ev.Flush? && ev.fd == fd && ev.result >= 0 then ev.result
    else 0
  }

  ghost function AllDelivered(r: Run, t: nat, fd: int): Bytes
    requires IsRun(r) && t <= |r.events|
  {
    if t == 0 then [] else AllDelivered(r, t - 1, fd) + Delivered(r.events[t - 1], fd)
  }

  ghost function AllTook(r: Run, t: nat, fd: int): Bytes
    requires IsRun(r) && t <= |r.events|
  {
    if t == 0 then []
    else
      assert IsStep(r.states[t - 1], r.events[t - 1], r.states[t]);
      AllTook(r, t - 1, fd) + Took(r.states[t - 1], r.events[t - 1], fd)
  }

  ghost function Results(r: Run, t: nat, fd: int): nat
    requires IsRun(r) && t <= |r.events|
  {
    if t == 0 then 0
    else
      assert IsStep(r.states[t - 1], r.events[t - 1], r.states[t]);
      Results(r, t - 1, fd) + Result(r.states[t - 1], r.events[t - 1], fd)
  }

  lemma {:induction false} NothingBeforeAccept(r: Run, t: nat, fd: int)
    requires IsRun(r) && t <= |r.events| && fd !in r.states[t]
    ensures AllDelivered(r, t, fd) == AllTook(r, t, fd) == [] && Results(r, t, fd) == 0
  {
    if t > 0 {
      assert IsStep(r.states[t - 1], r.events[t - 1], r.states[t]);
      NothingBeforeAccept(r, t - 1, fd);
    }
  }

  /** The bytes received are those the reads delivered, the bytes sent those the writes took, and their number
      is the sum of the results. */
  lemma BytesOfCalls(r: Run, t: nat, fd: int)
    requires IsRun(r) && t <= |r.events| && fd in r.states[t]
    ensures r.states[t][fd].received == AllDelivered(r, t, fd)
    ensures r.states[t][fd].sent == AllTook(r, t, fd)
    ensures |r.states[t][fd].sent| == Results(r, t, fd)
  {
    BytesUpTo(r, t, fd);
  }

  /** A connection with these bytes, and how many were sent. */
  predicate HasBytes(cs: Connections, fd: int, received: Bytes, sent: Bytes, n: nat) {
    fd in cs && cs[fd].received == received && cs[fd].sent == sent && |sent| == n
  }

  lemma {:induction false} BytesUpTo(r: Run, t: nat, fd: int)
    requires IsRun(r) && t <= |r.events| && fd in r.states[t]
    ensures HasBytes(r.states[t], fd, AllDelivered(r, t, fd), AllTook(r, t, fd), Results(r, t, fd))
  {
    if t > 0 {
      var cs, ev := r.states[t - 1], r.events[t - 1];
      OneMoreCall(r, t, fd);
      if fd in cs {
        BytesUpTo(r, t - 1, fd);
        BytesOfCall(cs, ev, fd, AllDelivered(r, t - 1, fd), AllTook(r, t - 1, fd), Results(r, t - 1, fd));
      } else {
        NothingBeforeAccept(r, t - 1, fd);
        AcceptedHasNothing(cs, ev, fd);
      }
    }
  }

  lemma OneMoreCall(r: Run, t: nat, fd: int)
    requires IsRun(r) && 0 < t <= |r.events|
    ensures Enabled(r.states[t - 1], r.events[t - 1]) && r.states[t] == Next(r.states[t - 1], r.events[t - 1])
    ensures AllDelivered(r, t, fd) == AllDelivered(r, t - 1, fd) + Delivered(r.events[t - 1], fd)
    ensures AllTook(r, t, fd) == AllTook(r, t - 1, fd) + Took(r.states[t - 1], r.events[t - 1], fd)
    ensures Results(r, t, fd) == Results(r, t - 1, fd) + Result(r.states[t - 1], r.events[t - 1], fd)
  {
    assert IsStep(r.states[t - 1], r.events[t - 1], r.states[t]);
  }

  lemma BytesOfCall(cs: Connections, ev: Event, fd: int, received: Bytes, sent: Bytes, n: nat)
    requires Enabled(cs, ev) && HasBytes(cs, fd, received, sent, n)
    ensures HasBytes(Next(cs, ev), fd, received + Delivered(ev, fd), sent + Took(cs, ev, fd), n + Result(cs, ev, fd))
  {
    if ev.Flush? && ev.fd == fd && ev.result < 0 {
      assert cs[fd].queue[0][..0] == [];
    }
  }

  lemma AcceptedHasNothing(cs: Connections, ev: Event, fd: int)
    requires Enabled(cs, ev) && fd !in cs && fd in Next(cs, ev)
    ensures HasBytes(Next(cs, ev), fd, [] + Delivered(ev, fd), [] + Took(cs, ev, fd), 0 + Result(cs, ev, fd))
  {
  }

  /** As long as nothing that drops bytes has happened, the queue is what was received past the sum of the
      results. */
  lemma QueueIsTheRest(r: Run, t: nat, fd: int)
    requires IsRun(r) && t <= |r.events| && fd in r.states[t]
    requires forall u | 0 <= u < t :: !IsLossy(r.states[u], r.events[u], fd)
    ensures Results(r, t, fd) <= |AllDelivered(r, t, fd)|
    ensures Concat(r.states[t][fd].queue) == AllDelivered(r, t, fd)[Results(r, t, fd)..]
  {
    var c := r.states[t][fd];
    BytesOfCalls(r, t, fd);
    EchoConserves(r, t, fd);
    assert (c.sent + Concat(c.queue))[|c.sent|..] == Concat(c.queue);
  }

  // ---------- Entries and strings ----------

  ghost predicate ReadSinceError(r: Run, t: nat, fd: int)
    requires IsRun(r) && t <= |r.events|
  {
    exists u | 0 <= u < t :: r.events[u].Read? && r.events[u].fd == fd
      && forall v | u < v < t :: !(r.events[v].ReadError? && r.events[v].fd == fd)
  }

  lemma ReadSinceErrorGrows(r: Run, t: nat, fd: int)
    requires IsRun(r) && 0 < t <= |r.events|
    ensures var ev := r.events[t - 1];
      ReadSinceError(r, t, fd)
      <==> (ev.Read? && ev.fd == fd) || (ReadSinceError(r, t - 1, fd) && !(ev.ReadError? && ev.fd == fd))
  {
  }

  /** There is an entry exactly when a read has delivered something since the last hard error. */
  lemma {:induction false} EntryExactlyAfterRead(r: Run, t: nat, fd: int)
    requires IsRun(r) && t <= |r.events|
    ensures fd in r.states[t] && r.states[t][fd].hasEntry <==> ReadSinceError(r, t, fd)
  {
    if t > 0 {
      var cs, ev := r.states[t - 1], r.events[t - 1];
      assert IsStep(cs, ev, r.states[t]);
      EntryExactlyAfterRead(r, t - 1, fd);
      ReadSinceErrorGrows(r, t, fd);
    }
  }

  /** The strings put into the queue since the last hard error: what a first write left over, and then what
      every read delivered. */
  ghost function Pushed(r: Run, t: nat, fd: int): seq<Bytes>
    requires IsRun(r) && t <= |r.events|
  {
    if t == 0 then []
    else
      var ev, before := r.events[t - 1], Pushed(r, t - 1, fd);
      assert IsStep(r.states[t - 1], ev, r.states[t]);
      if ev.fd != fd then before
      else
        match ev
        case Accept(_) => []
        case Read(_, data, nwrite) =>
          if r.states[t - 1][fd].hasEntry then before + [data] else before + [data[nwrite..]]
        case ReadError(_) => []
        case Flush(_, _) => before
  }

  /** The queue is the last of the strings pushed, the first of them without what flushes took of it. */
  ghost predicate IsRestOf(queue: seq<Bytes>, pushed: seq<Bytes>) {
    && |queue| <= |pushed|
    && (forall i | 1 <= i < |queue| :: queue[i] == pushed[|pushed| - |queue| + i])
    && (queue != [] ==> EndsWith(pushed[|pushed| - |queue|], queue[0]))
  }

  predicate EndsWith(whole: Bytes, s: Bytes) {
    |s| <= |whole| && whole[|whole| - |s|..] == s
  }

  /** The strings wait in the order they were pushed, one for each read, none split or merged. */
  lemma {:induction false} QueueIsPushed(r: Run, t: nat, fd: int)
    requires IsRun(r) && t <= |r.events| && fd in r.states[t]
    ensures IsRestOf(r.states[t][fd].queue, Pushed(r, t, fd))
  {
    if t > 0 {
      var cs, ev := r.states[t - 1], r.events[t - 1];
      assert IsStep(cs, ev, r.states[t]);
      if fd in cs {
        QueueIsPushed(r, t - 1, fd);
        if ev.fd == fd {
          QueuesAreWellFormed(r, t - 1, fd);
          RestAfter(cs[fd], ev, Pushed(r, t - 1, fd), Pushed(r, t, fd), r.states[t][fd]);
        }
      }
    }
  }

  lemma RestAfter(c: Connection, ev: Event, pushed: seq<Bytes>, pushed': seq<Bytes>, c': Connection)
    requires WellFormed(c) && IsRestOf(c.queue, pushed)
    requires match ev
      case Accept(_) => false
      case Read(_, data, nwrite) =>
        && 1 <= |data| && nwrite <= |data| / 2 && c' == AfterRead(c, data, nwrite)
        && pushed' == pushed + [if c.hasEntry then data else data[nwrite..]]
      case ReadError(_) => c' == AfterReadError(c) && pushed' == []
      case Flush(_, n) => CanFlush(c, n) && c' == AfterFlush(c, n) && pushed' == pushed
    ensures IsRestOf(c'.queue, pushed')
  {
    match ev
    case Read(_, data, nwrite) => RestAfterPush(c.queue, pushed, if c.hasEntry then data else data[nwrite..]);
    case ReadError(_) =>
    case Flush(_, n) => RestAfterFlush(c, n, pushed);
  }

  lemma RestAfterPush(queue: seq<Bytes>, pushed: seq<Bytes>, s: Bytes)
    requires IsRestOf(queue, pushed)
    ensures IsRestOf(queue + [s], pushed + [s])
  {
    assert EndsWith(s, s);
  }

  lemma RestAfterFlush(c: Connection, result: int, pushed: seq<Bytes>)
    requires WellFormed(c) && IsRestOf(c.queue, pushed) && CanFlush(c, result)
    ensures IsRestOf(AfterFlush(c, result).queue, pushed)
  {
    if 0 <= result < |c.queue[0]| {
      RestAfterErase(c.queue, pushed, result);
    } else {
      RestAfterPop(c.queue, pushed);
    }
  }

  lemma RestAfterErase(queue: seq<Bytes>, pushed: seq<Bytes>, n: nat)
    requires queue != [] && n <= |queue[0]| && IsRestOf(queue, pushed)
    ensures IsRestOf([queue[0][n..]] + queue[1..], pushed)
  {
    var s, whole := queue[0], pushed[|pushed| - |queue|];
    assert whole[|whole| - (|s| - n)..] == whole[|whole| - |s|..][n..];
  }

  lemma RestAfterPop(queue: seq<Bytes>, pushed: seq<Bytes>)
    requires queue != [] && IsRestOf(queue, pushed)
    ensures IsRestOf(queue[1..], pushed)
  {
    if |queue| > 1 {
      assert EndsWith(queue[1], queue[1]);
    }
  }
}
