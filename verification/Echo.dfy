/** The event loop of echo/epoll/echo_server.cpp: a queue of unsent strings for each connection, and what
    becomes of the bytes received. */
module Echo {
  import opened ByteStrings

  /** What is known of one connection: the queue of the session map, if it has an entry, and the bytes
      received and sent since it was accepted. */
  datatype Connection = Connection(queue: seq<Bytes>, hasEntry: bool, received: Bytes, sent: Bytes)

  const FRESH := Connection([], false, [], [])

  type Connections = map<int, Connection>

  /** One read or write of the event loop on a descriptor.
      Read: a read returned data; without an entry for the descriptor, half of it is written at once and nwrite
      is what that write took. ReadError: a read failed, and not because it would block. Flush: a write of
      the front string returned result, which is -1 when it failed. */
  datatype Event =
    | Accept(fd: int)
    | Read(fd: int, data: Bytes, nwrite: nat)
    | ReadError(fd: int)
    | Flush(fd: int, result: int)

  /** Reads return 1 to 1024 bytes, writes at most what was asked for, and a flush needs something queued. */
  predicate Enabled(cs: Connections, ev: Event) {
    match ev
    case Accept(fd) => fd !in cs
    case Read(fd, data, nwrite) => fd in cs && 1 <= |data| <= 1024 && nwrite <= |data| / 2
    case ReadError(fd) => fd in cs
    case Flush(fd, nwrite) => fd in cs && CanFlush(cs[fd], nwrite)
  }

  predicate CanFlush(c: Connection, nwrite: int) {
    c.hasEntry && c.queue != [] && -1 <= nwrite <= |c.queue[0]|
  }

  function AfterRead(c: Connection, data: Bytes, nwrite: nat): Connection
    requires nwrite <= |data|
  {
    if !c.hasEntry then
      c.(received := c.received + data, sent := c.sent + data[..nwrite],
         queue := if nwrite != |data| then c.queue + [data[nwrite..]] else c.queue,
         hasEntry := nwrite != |data|)
    else
      c.(received := c.received + data, queue := c.queue + [data])
  }

  /** The entry goes, and with it all that was queued; the read loop goes on. */
  function AfterReadError(c: Connection): Connection {
    c.(queue := [], hasEntry := false)
  }

  /** The comparison of an int with a size_t: -1 becomes the largest size. */
  function AsSize(n: int): nat
    requires -1 <= n
  {
    if n < 0 then 0xFFFF_FFFF_FFFF_FFFF else n
  }

  /** A write that took part of the front string leaves the rest of it; any other result pops the string,
      and that includes a write that failed. */
  function AfterFlush(c: Connection, nwrite: int): Connection
    requires CanFlush(c, nwrite)
  {
    var front := c.queue[0];
    var taken := if nwrite < 0 then 0 else nwrite;
    c.(sent := c.sent + front[..taken],
       queue := if AsSize(nwrite) < |front| then [front[AsSize(nwrite)..]] + c.queue[1..] else c.queue[1..])
  }

  function Next(cs: Connections, ev: Event): Connections
    requires Enabled(cs, ev)
  {
    match ev
    case Accept(fd) => cs[fd := FRESH]
    case Read(fd, data, nwrite) => cs[fd := AfterRead(cs[fd], data, nwrite)]
    case ReadError(fd) => cs[fd := AfterReadError(cs[fd])]
    case Flush(fd, nwrite) => cs[fd := AfterFlush(cs[fd], nwrite)]
  }

  datatype Run = Run(states: seq<Connections>, events: seq<Event>)

  ghost predicate IsStep(cs: Connections, ev: Event, cs': Connections) {
    Enabled(cs, ev) && cs' == Next(cs, ev)
  }

  ghost predicate IsRun(r: Run) {
    && |r.states| == |r.events| + 1
    && r.states[0] == map[]
    && forall t | 0 <= t < |r.events| :: IsStep(r.states[t], r.events[t], r.states[t + 1])
  }

  ghost function Last(r: Run): Connections
    requires IsRun(r)
  {
    r.states[|r.events|]
  }

  lemma RunGrows(r: Run, ev: Event) returns (r': Run)
    requires IsRun(r) && Enabled(Last(r), ev)
    ensures r' == Run(r.states + [Next(Last(r), ev)], r.events + [ev])
    ensures IsRun(r') && Last(r') == Next(Last(r), ev)
  {
    r' := Run(r.states + [Next(Last(r), ev)], r.events + [ev]);
    forall t | 0 <= t < |r'.events| ensures IsStep(r'.states[t], r'.events[t], r'.states[t + 1]) {
      if t < |r.events| {
        assert IsStep(r.states[t], r.events[t], r.states[t + 1]);
      }
    }
  }

  // ---------- Accounting ----------

  function Concat(queue: seq<Bytes>): Bytes {
    if queue == [] then [] else queue[0] + Concat(queue[1..])
  }

  /** Sent, and then to be sent. */
  function Echoed(c: Connection): Bytes {
    c.sent + Concat(c.queue)
  }

  /** Everything received is sent or queued, in order. */
  predicate Conserves(c: Connection) {
    Echoed(c) == c.received
  }

  /** Queued strings are never empty and never longer than the read buffer; without an entry nothing is
      queued. */
  predicate WellFormed(c: Connection) {
    && (forall i | 0 <= i < |c.queue| :: 1 <= |c.queue[i]| <= 1024)
    && (!c.hasEntry ==> c.queue == [])
  }

  /** The events that drop queued bytes: a failed read with something queued, and a failed write. */
  predicate IsLossy(cs: Connections, ev: Event, fd: int) {
    ev.fd == fd && fd in cs && match ev
      case ReadError(_) => cs[fd].queue != []
      case Flush(_, nwrite) => nwrite < 0
      case _ => false
  }

  /** How many bytes such an event drops. */
  function Dropped(cs: Connections, ev: Event, fd: int): nat
    requires Enabled(cs, ev)
  {
    if !IsLossy(cs, ev, fd) then 0
    else if ev.ReadError? then |Concat(cs[fd].queue)|
    else |cs[fd].queue[0]|
  }

  /** All bytes of one descriptor dropped in the first t events. */
  ghost function Lost(r: Run, t: nat, fd: int): nat
    requires IsRun(r) && t <= |r.events|
  {
    if t == 0 then 0
    else
      assert IsStep(r.states[t - 1], r.events[t - 1], r.states[t]);
      Lost(r, t - 1, fd) + Dropped(r.states[t - 1], r.events[t - 1], fd)
  }

  lemma {:induction false} ConcatAppends(queue: seq<Bytes>, x: Bytes)
    ensures Concat(queue + [x]) == Concat(queue) + x
  {
    if queue == [] {
      assert Concat([x]) == x + Concat([]) == x;
      assert queue + [x] == [x];
    } else {
      assert (queue + [x])[1..] == queue[1..] + [x];
      ConcatAppends(queue[1..], x);
    }
  }

  /** A read adds what it delivered at the end, whether half of it is echoed at once or all of it queued. */
  lemma ReadAppends(c: Connection, data: Bytes, nwrite: nat)
    requires WellFormed(c) && 1 <= |data| <= 1024 && nwrite <= |data| / 2
    ensures WellFormed(AfterRead(c, data, nwrite))
    ensures Echoed(AfterRead(c, data, nwrite)) == Echoed(c) + data
  {
    if c.hasEntry {
      ConcatAppends(c.queue, data);
      assert c.sent + (Concat(c.queue) + data) == (c.sent + Concat(c.queue)) + data;
    } else {
      FirstReadAppends(c, data, nwrite);
    }
  }

  /** Without an entry nothing is queued: what the first write leaves over becomes the queue. */
  lemma FirstReadAppends(c: Connection, data: Bytes, nwrite: nat)
    requires WellFormed(c) && !c.hasEntry && 1 <= |data| <= 1024 && nwrite <= |data| / 2
    ensures WellFormed(AfterRead(c, data, nwrite))
    ensures Echoed(AfterRead(c, data, nwrite)) == Echoed(c) + data
  {
    var c', rest := AfterRead(c, data, nwrite), data[nwrite..];
    assert c'.queue == [rest] && Concat([rest]) == rest + Concat([]);
    assert c'.sent == c.sent + data[..nwrite] && data[..nwrite] + rest == data;
    assert Echoed(c) == c.sent;
  }

  /** A write that did not fail moves bytes from the queue to the sent ones; one that failed drops the whole
      front string. */
  lemma FlushMoves(c: Connection, nwrite: int)
    requires WellFormed(c) && CanFlush(c, nwrite)
    ensures WellFormed(AfterFlush(c, nwrite))
    ensures Echoed(c) == c.sent + c.queue[0] + Concat(c.queue[1..])
    ensures Echoed(AfterFlush(c, nwrite)) == if nwrite >= 0 then Echoed(c) else c.sent + Concat(c.queue[1..])
  {
    var front, rest := c.queue[0], c.queue[1..];
    assert c.sent + (front + Concat(rest)) == c.sent + front + Concat(rest);
    if 0 <= nwrite < |front| {
      var left := [front[nwrite..]] + rest;
      assert left[1..] == rest;
      assert (c.sent + front[..nwrite]) + (front[nwrite..] + Concat(rest)) == c.sent + front + Concat(rest);
    } else if nwrite >= 0 {
      assert front[..nwrite] == front;
    } else {
      assert c.sent + front[..0] == c.sent;
    }
  }

  /** Queued strings stay within their bounds, so the assertion on what a write returns holds. */
  lemma {:induction false} QueuesAreWellFormed(r: Run, t: nat, fd: int)
    requires IsRun(r) && t <= |r.events| && fd in r.states[t]
    ensures WellFormed(r.states[t][fd])
  {
    if t > 0 {
      var cs, ev := r.states[t - 1], r.events[t - 1];
      assert IsStep(cs, ev, r.states[t]);
      if fd in cs {
        QueuesAreWellFormed(r, t - 1, fd);
        if ev.fd == fd {
          StepIsWellFormed(cs, ev);
        }
      }
    }
  }

  lemma StepIsWellFormed(cs: Connections, ev: Event)
    requires Enabled(cs, ev) && (!ev.Accept? ==> WellFormed(cs[ev.fd]))
    ensures WellFormed(Next(cs, ev)[ev.fd])
  {
    match ev
    case Accept(_) =>
    case Read(fd, data, nwrite) => ReadAppends(cs[fd], data, nwrite);
    case ReadError(_) =>
    case Flush(fd, nwrite) => FlushMoves(cs[fd], nwrite);
  }

  // ---------- Order ----------

  /** b with some of its bytes left out. */
  ghost predicate IsSubsequence(a: Bytes, b: Bytes)
    decreases |b|
  {
    if b == [] then a == []
    else
      var short := b[..|b| - 1];
      || (a != [] && a[|a| - 1] == b[|b| - 1] && IsSubsequence(a[..|a| - 1], short))
      || IsSubsequence(a, short)
  }

  lemma {:induction false} BothGrow(a: Bytes, b: Bytes, x: Bytes)
    requires IsSubsequence(a, b)
    ensures IsSubsequence(a + x, b + x)
    decreases |x|
  {
    if x == [] {
      assert a + x == a && b + x == b;
    } else {
      var short := x[..|x| - 1];
      BothGrow(a, b, short);
      assert (a + x)[..|a + x| - 1] == a + short && (b + x)[..|b + x| - 1] == b + short;
    }
  }

  /** Leaving out a middle part. */
  lemma {:induction false} MiddleLeftOut(a: Bytes, m: Bytes, c: Bytes, b: Bytes)
    requires IsSubsequence(a + m + c, b)
    ensures IsSubsequence(a + c, b)
    decreases |b|
  {
    var amc, ac := a + m + c, a + c;
    if m == [] || b == [] {
      assert ac == amc;
    } else {
      var short := b[..|b| - 1];
      if IsSubsequence(amc, short) {
        MiddleLeftOut(a, m, c, short);
      } else if c != [] {
        var c' := c[..|c| - 1];
        assert amc[..|amc| - 1] == a + m + c' && ac[..|ac| - 1] == a + c';
        MiddleLeftOut(a, m, c', short);
      } else {
        var m' := m[..|m| - 1];
        assert amc[..|amc| - 1] == a + m' + c;
        MiddleLeftOut(a, m', c, short);
      }
    }
  }

  lemma {:induction false} EqualWhenNothingIsLeftOut(a: Bytes, b: Bytes)
    requires IsSubsequence(a, b)
    ensures |a| <= |b| && (|a| == |b| ==> a == b)
    decreases |b|
  {
    if b != [] {
      var short := b[..|b| - 1];
      if IsSubsequence(a, short) {
        EqualWhenNothingIsLeftOut(a, short);
      } else {
        EqualWhenNothingIsLeftOut(a[..|a| - 1], short);
        if |a| == |b| {
          assert a == a[..|a| - 1] + [a[|a| - 1]] && b == short + [b[|b| - 1]];
        }
      }
    }
  }

  /** In any interleaving: what is sent and queued is what was received, in order, with exactly the bytes left
      out that failed reads and failed flushes dropped. */
  lemma {:induction false} EchoAccountsForBytes(r: Run, t: nat, fd: int)
    requires IsRun(r) && t <= |r.events| && fd in r.states[t]
    ensures var c := r.states[t][fd];
      && IsSubsequence(Echoed(c), c.received)
      && |Echoed(c)| + Lost(r, t, fd) == |c.received|
  {
    if t > 0 {
      var cs, ev := r.states[t - 1], r.events[t - 1];
      assert IsStep(cs, ev, r.states[t]);
      if fd in cs {
        EchoAccountsForBytes(r, t - 1, fd);
        QueuesAreWellFormed(r, t - 1, fd);
        if ev.fd == fd {
          StepAccounts(cs, ev);
        }
      } else {
        NothingLostBefore(r, t - 1, fd);
      }
    }
  }

  lemma StepAccounts(cs: Connections, ev: Event)
    requires Enabled(cs, ev) && ev.fd in cs && WellFormed(cs[ev.fd])
    requires IsSubsequence(Echoed(cs[ev.fd]), cs[ev.fd].received)
    ensures var c, c' := cs[ev.fd], Next(cs, ev)[ev.fd];
      && IsSubsequence(Echoed(c'), c'.received)
      && |c'.received| - |Echoed(c')| == |c.received| - |Echoed(c)| + Dropped(cs, ev, ev.fd)
  {
    var c := cs[ev.fd];
    match ev
    case Read(_, data, nwrite) =>
      ReadAppends(c, data, nwrite);
      BothGrow(Echoed(c), c.received, data);
    case ReadError(_) =>
      assert Echoed(c) == c.sent + Concat(c.queue) + [];
      MiddleLeftOut(c.sent, Concat(c.queue), [], c.received);
      assert c.sent + [] == Echoed(AfterReadError(c));
    case Flush(_, nwrite) =>
      FlushMoves(c, nwrite);
      if nwrite < 0 {
        MiddleLeftOut(c.sent, c.queue[0], Concat(c.queue[1..]), c.received);
      }
  }

  /** Connections never go away, so one that is not there has never been. */
  lemma {:induction false} NothingLostBefore(r: Run, t: nat, fd: int)
    requires IsRun(r) && t <= |r.events| && fd !in r.states[t]
    ensures Lost(r, t, fd) == 0
  {
    if t > 0 {
      assert IsStep(r.states[t - 1], r.events[t - 1], r.states[t]);
      NothingLostBefore(r, t - 1, fd);
    }
  }

  /** The echo conserves exactly as long as no read failed with something queued and no write failed. */
  lemma EchoConserves(r: Run, t: nat, fd: int)
    requires IsRun(r) && t <= |r.events| && fd in r.states[t]
    ensures Conserves(r.states[t][fd]) <==> forall u | 0 <= u < t :: !IsLossy(r.states[u], r.events[u], fd)
    ensures r.states[t][fd].sent <= Echoed(r.states[t][fd])
  {
    var c := r.states[t][fd];
    EchoAccountsForBytes(r, t, fd);
    EqualWhenNothingIsLeftOut(Echoed(c), c.received);
    NothingLostExactlyWhen(r, t, fd);
  }

  /** It does lose: one byte is received and queued, and then a read fails. */
  lemma ReadErrorExample(fd: int) returns (r: Run)
    ensures IsRun(r) && r.events == [Accept(fd), Read(fd, [1], 0), ReadError(fd)]
    ensures fd in Last(r) && Last(r)[fd] == Connection([], false, [1], []) && !Conserves(Last(r)[fd])
  {
    r := OneByteQueued(fd);
    r := RunGrows(r, ReadError(fd));
    assert Concat([]) == [];
  }

  /** And so does a write that fails. */
  lemma FailedWriteExample(fd: int) returns (r: Run)
    ensures IsRun(r) && r.events == [Accept(fd), Read(fd, [1], 0), Flush(fd, -1)]
    ensures fd in Last(r) && Last(r)[fd] == Connection([], true, [1], []) && !Conserves(Last(r)[fd])
  {
    r := OneByteQueued(fd);
    r := RunGrows(r, Flush(fd, -1));
    assert Concat([]) == [];
  }

  lemma OneByteQueued(fd: int) returns (r: Run)
    ensures IsRun(r) && r.events == [Accept(fd), Read(fd, [1], 0)]
    ensures Last(r) == map[fd := Connection([[1]], true, [1], [])]
  {
    r := Run([map[]], []);
    r := RunGrows(r, Accept(fd));
    r := RunGrows(r, Read(fd, [1], 0));
    assert AfterRead(FRESH, [1], 0) == Connection([[1]], true, [1], []);
  }

  lemma {:induction false} NothingLostExactlyWhen(r: Run, t: nat, fd: int)
    requires IsRun(r) && t <= |r.events|
    ensures Lost(r, t, fd) == 0 <==> forall u | 0 <= u < t :: !IsLossy(r.states[u], r.events[u], fd)
  {
    if t > 0 {
      var cs, ev := r.states[t - 1], r.events[t - 1];
      assert IsStep(cs, ev, r.states[t]);
      NothingLostExactlyWhen(r, t - 1, fd);
      if IsLossy(cs, ev, fd) {
        QueuesAreWellFormed(r, t - 1, fd);
        FrontIsPartOfAll(cs[fd].queue);
      }
    }
  }

  lemma FrontIsPartOfAll(queue: seq<Bytes>)
    requires queue != []
    ensures |Concat(queue)| >= |queue[0]|
  {
  }

  // ---------- Draining ----------

  /** Flushes one after the other, each taking the given number of bytes of the front string, or all of it
      when it is shorter; they stop when the queue is empty. */
  function Drain(c: Connection, takes: seq<nat>): Connection
    requires c.hasEntry
    decreases takes
  {
    if takes == [] || c.queue == [] then c
    else
      var n := if takes[0] <= |c.queue[0]| then takes[0] else |c.queue[0]|;
      Drain(AfterFlush(c, n), takes[1..])
  }

  /** As many flushes as there are queued bytes, each writing at least one, send everything that is queued,
      in order; after a run without losses that is everything received. The map entry stays behind, with an
      empty queue. */
  lemma {:induction false} DrainSendsAll(c: Connection, takes: seq<nat>)
    requires c.hasEntry && WellFormed(c) && |takes| >= |Concat(c.queue)|
    requires forall i | 0 <= i < |takes| :: takes[i] >= 1
    ensures Drain(c, takes).queue == [] && Drain(c, takes).sent == Echoed(c)
    ensures Drain(c, takes).received == c.received && Drain(c, takes).hasEntry
    decreases |takes|
  {
    if c.queue != [] {
      FrontIsPartOfAll(c.queue);
      var n := if takes[0] <= |c.queue[0]| then takes[0] else |c.queue[0]|;
      var c' := AfterFlush(c, n);
      FlushMoves(c, n);
      assert |c'.sent| == |c.sent| + n;
      assert |Concat(c'.queue)| == |Echoed(c)| - |c'.sent|;
      DrainSendsAll(c', takes[1..]);
    }
  }

  /** The same over runs: any run that has left an entry goes on with flushes of that descriptor alone, none of
      them failed, until all that was queued is sent. */
  lemma {:induction false} DrainIsRun(r: Run, fd: int, takes: seq<nat>) returns (r': Run)
    requires IsRun(r) && fd in Last(r) && Last(r)[fd].hasEntry
    ensures IsRun(r') && Last(r') == Last(r)[fd := Drain(Last(r)[fd], takes)]
    ensures OnlyFlushedSince(r.events, r'.events, fd)
    decreases takes
  {
    var c := Last(r)[fd];
    if takes == [] || c.queue == [] {
      r' := r;
      assert Last(r)[fd := c] == Last(r);
    } else {
      var n := if takes[0] <= |c.queue[0]| then takes[0] else |c.queue[0]|;
      var next := RunGrows(r, Flush(fd, n));
      r' := DrainIsRun(next, fd, takes[1..]);
      FlushedOnceMore(r.events, Flush(fd, n), r'.events, fd);
    }
  }

  ghost predicate OnlyFlushedSince(before: seq<Event>, after: seq<Event>, fd: int) {
    && before <= after
    && forall u | |before| <= u < |after| :: after[u].Flush? && after[u].fd == fd && after[u].result >= 0
  }

  lemma FlushedOnceMore(before: seq<Event>, ev: Event, after: seq<Event>, fd: int)
    requires ev.Flush? && ev.fd == fd && ev.result >= 0 && OnlyFlushedSince(before + [ev], after, fd)
    ensures OnlyFlushedSince(before, after, fd)
  {
    assert after[..|before| + 1] == before + [ev];
  }

  /** Nothing is queued, and yet there is an entry: the next writable event would ask the empty queue for its
      front. */
  predicate IsDrained(cs: Connections, fd: int) {
    fd in cs && cs[fd].hasEntry && cs[fd].queue == []
  }

  /** A flush that takes the last string out of the queue. */
  predicate PopsLast(cs: Connections, ev: Event, fd: int)
    requires Enabled(cs, ev)
  {
    ev.Flush? && ev.fd == fd && |cs[fd].queue| == 1 && (ev.result < 0 || ev.result == |cs[fd].queue[0]|)
  }

  ghost predicate PoppedLastAt(r: Run, u: nat, fd: int)
    requires IsRun(r) && u < |r.events|
  {
    assert IsStep(r.states[u], r.events[u], r.states[u + 1]);
    PopsLast(r.states[u], r.events[u], fd)
  }

  /** That happens exactly when the last event on the descriptor popped the last string of its queue. */
  lemma {:induction false} DrainedExactlyAfterLastPop(r: Run, t: nat, fd: int)
    requires IsRun(r) && t <= |r.events|
    ensures IsDrained(r.states[t], fd)
       <==> exists u | 0 <= u < t :: PoppedLastAt(r, u, fd) && forall v | u < v < t :: r.events[v].fd != fd
  {
    if t > 0 {
      var cs, ev := r.states[t - 1], r.events[t - 1];
      assert IsStep(cs, ev, r.states[t]);
      DrainedExactlyAfterLastPop(r, t - 1, fd);
      if ev.fd == fd {
        if fd in cs {
          QueuesAreWellFormed(r, t - 1, fd);
          DrainedByStep(cs, ev);
        }
        assert PoppedLastAt(r, t - 1, fd) == PopsLast(cs, ev, fd);
      }
    }
  }

  lemma DrainedByStep(cs: Connections, ev: Event)
    requires Enabled(cs, ev) && ev.fd in cs && WellFormed(cs[ev.fd])
    ensures IsDrained(Next(cs, ev), ev.fd) <==> PopsLast(cs, ev, ev.fd)
  {
    match ev
    case Read(fd, data, nwrite) => ReadAppends(cs[fd], data, nwrite);
    case ReadError(_) =>
    case Flush(fd, result) => FlushMoves(cs[fd], result);
  }
}
