/**
 The sensor FIFO as `mpu6050_get_current_FIFO_packet` sees it, and that
 reader itself.

 The hardware FIFO is a byte sequence. The producer that fills it runs
 concurrently with the driver; it is modelled by an oracle: a list of
 arrivals, one consumed at every FIFO_COUNT poll, each carrying the bytes
 that arrived since the previous poll and the microseconds that elapsed. The
 microsecond timer that `esp_timer_get_time()` reads is the sensor's `now`.
 Everything the reader does on the bus is recorded in a trace.
 */
module Fifo {
  import opened Bytes

  /** Bytes in one DMP packet (`length` in the reader). */
  const PACKET_LENGTH: nat := 42
  /** Above this count the reader resets the FIFO instead of draining it. */
  const OVERFLOW_THRESHOLD: nat := 200
  /** `I2CDEVLIB_WIRE_BUFFER_LENGTH`: the largest discard transfer. */
  const WIRE_BUFFER_LENGTH: nat := 32
  /** `MPU6050_FIFO_DEFAULT_TIMEOUT`, in microseconds. */
  const FIFO_TIMEOUT: nat := 11000

  type Delay = d: int | d >= 1 witness 1

  /** What the producer adds between two count polls, and how long that took. */
  datatype Arrival = Arrival(bytes: seq<Byte>, delay: Delay)

  /** The FIFO contents, the timer, and the arrivals still to come. */
  datatype Sensor = Sensor(fifo: seq<Byte>, now: int, pending: seq<Arrival>)

  /** A bus operation of the reader. */
  datatype Op = CountPoll(count: nat) | FifoReset | Drain(len: nat) | ReadPacket(len: nat)

  /** The arrival seen at the next poll; once the oracle is exhausted, nothing arrives. */
  function NextArrival(p: seq<Arrival>): Arrival
  {
    if p == [] then Arrival([], 1) else p[0]
  }

  function Later(p: seq<Arrival>): seq<Arrival>
  {
    if p == [] then [] else p[1..]
  }

  /** All bytes the producer will still deliver, in order. */
  function Flatten(p: seq<Arrival>): seq<Byte>
  {
    if p == [] then [] else p[0].bytes + Flatten(p[1..])
  }

  /** Every byte the reader can still see: the FIFO now, then the future arrivals. */
  function Stream(s: Sensor): seq<Byte>
  {
    s.fifo + Flatten(s.pending)
  }

  /** No byte arrives any more. */
  predicate Static(s: Sensor)
  {
    Flatten(s.pending) == []
  }

  /** The FIFO count fits the 16-bit FIFO_COUNTH/FIFO_COUNTL register pair. */
  predicate Bounded(s: Sensor)
  {
    |Stream(s)| < 0x1_0000
  }

  predicate DelayBound(p: seq<Arrival>, m: int)
  {
    forall i :: 0 <= i < |p| ==> p[i].delay <= m
  }

  /** The longest gap between two polls the oracle holds (1 when it is empty). */
  function MaxDelay(p: seq<Arrival>): (m: Delay)
    ensures DelayBound(p, m)
    ensures NextArrival(p).delay <= m
  {
    if p == [] then 1
    else
      var rest := MaxDelay(p[1..]);
      assert forall i :: 1 <= i < |p| ==> p[i] == p[1..][i - 1];
      if p[0].delay > rest then p[0].delay else rest
  }

  /** A bound on the gaps still holds after the next arrival is consumed. */
  lemma DelayBoundLater(p: seq<Arrival>, m: int)
    requires DelayBound(p, m)
    ensures DelayBound(Later(p), m)
  {
    if p != [] {
      assert forall i :: 0 <= i < |p| - 1 ==> Later(p)[i] == p[i + 1];
    }
  }

  lemma {:induction false} FlattenStep(p: seq<Arrival>)
    ensures Flatten(p) == NextArrival(p).bytes + Flatten(Later(p))
  {
  }

  /** The count poll moves the next arrival into the FIFO and reads the clock. */
  datatype Polled = Polled(s: Sensor, count: nat)

  /**
   `mpu6050_get_FIFO_count`: the count comes back as a big-endian register
   pair and is composed as `(buf[0] << 8) | buf[1]`.
   */
  function GetFifoCount(s: Sensor): (r: Polled)
    requires Bounded(s)
    ensures r.count == |r.s.fifo|
    ensures Stream(r.s) == Stream(s) && Bounded(r.s)
    ensures |s.fifo| <= |r.s.fifo| && r.s.fifo[..|s.fifo|] == s.fifo
    ensures s.now < r.s.now <= s.now + MaxDelay(s.pending)
    ensures r.s.pending == Later(s.pending)
    ensures DelayBound(r.s.pending, MaxDelay(s.pending))
    ensures Static(s) ==> Static(r.s) && r.s.fifo == s.fifo
  {
    var a := NextArrival(s.pending);
    var s1 := Sensor(s.fifo + a.bytes, s.now + a.delay, Later(s.pending));
    FlattenStep(s.pending);
    assert Stream(s1) == Stream(s);
    assert forall i :: 0 <= i < |s1.pending| ==> s1.pending[i] == s.pending[i + 1];
    var pair := EncodeU16BE(|s1.fifo|);
    U16RoundTrip(|s1.fifo|);
    Polled(s1, U16BE(pair.0, pair.1))
  }

  datatype Fetched = Fetched(s: Sensor, data: seq<Byte>)

  /**
   `mpu6050_get_FIFO_bytes`: a non-empty read takes the oldest `n` bytes
   from the FIFO; a zero-length request stores a single 0 and reads nothing.
   */
  function GetFifoBytes(s: Sensor, n: nat): (r: Fetched)
    requires n <= |s.fifo| && n < 256
    ensures r.s.now == s.now && r.s.pending == s.pending
    ensures n > 0 ==> r.data == s.fifo[..n] && r.s.fifo == s.fifo[n..]
    ensures n > 0 ==> Stream(s) == r.data + Stream(r.s)
    ensures n == 0 ==> r.data == [0] && r.s == s
  {
    if n > 0 then
      assert s.fifo == s.fifo[..n] + s.fifo[n..];
      Fetched(s.(fifo := s.fifo[n..]), s.fifo[..n])
    else
      Fetched(s, [0])
  }

  /** `mpu6050_reset_FIFO`: the FIFO_RESET bit empties the FIFO. */
  function ResetFifo(s: Sensor): (r: Sensor)
    ensures r.fifo == [] && r.now == s.now && r.pending == s.pending
    ensures Stream(s) == s.fifo + Stream(r)
  {
    s.(fifo := [])
  }

  /** Bytes discarded by the drain operations of a trace. */
  function Drained(t: seq<Op>): nat
  {
    if t == [] then 0
    else Drained(t[..|t| - 1]) + (if t[|t| - 1].Drain? then t[|t| - 1].len else 0)
  }

  lemma {:induction false} DrainedAppend(a: seq<Op>, b: seq<Op>)
    ensures Drained(a + b) == Drained(a) + Drained(b)
    decreases |b|
  {
    if b != [] {
      assert (a + b)[..|a + b| - 1] == a + b[..|b| - 1];
      DrainedAppend(a, b[..|b| - 1]);
    } else {
      assert a + b == a;
    }
  }

  lemma {:induction false} DrainedOfPolls(t: seq<Op>)
    requires OnlyPolls(t)
    ensures Drained(t) == 0
    decreases |t|
  {
    if t != [] {
      DrainedOfPolls(t[..|t| - 1]);
    }
  }

  /** Trace properties of a concatenation are those of its parts. */
  lemma TraceAppend(a: seq<Op>, b: seq<Op>)
    ensures Drained(a + b) == Drained(a) + Drained(b)
    ensures DrainsBounded(a + b) <==> DrainsBounded(a) && DrainsBounded(b)
    ensures NoPacketRead(a + b) <==> NoPacketRead(a) && NoPacketRead(b)
    ensures a != [] ==> (a + b)[0] == a[0]
    ensures |a| >= 2 ==> (a + b)[1] == a[1]
  {
    DrainedAppend(a, b);
    assert forall i :: 0 <= i < |a| ==> (a + b)[i] == a[i];
    assert forall i :: 0 <= i < |b| ==> (a + b)[|a| + i] == b[i];
  }

  /** Every discard transfer moves between 1 and 32 bytes. */
  predicate DrainsBounded(t: seq<Op>)
  {
    forall i :: 0 <= i < |t| && t[i].Drain? ==> 1 <= t[i].len <= WIRE_BUFFER_LENGTH
  }

  predicate NoPacketRead(t: seq<Op>)
  {
    forall i :: 0 <= i < |t| ==> !t[i].ReadPacket?
  }

  predicate OnlyPolls(t: seq<Op>)
  {
    forall i :: 0 <= i < |t| ==> t[i].CountPoll?
  }

  /** Every operation is a discard transfer of 1 to 32 bytes. */
  predicate DrainChunks(t: seq<Op>)
  {
    forall i :: 0 <= i < |t| ==> t[i].Drain? && 1 <= t[i].len <= WIRE_BUFFER_LENGTH
  }

  /** Every operation before position `k` moves a full wire buffer. */
  predicate FullUpTo(t: seq<Op>, k: int)
  {
    forall i :: 0 <= i < |t| && i < k ==> t[i].Drain? && t[i].len == WIRE_BUFFER_LENGTH
  }

  lemma AppendChunk(t: seq<Op>, r: nat)
    requires DrainChunks(t) && FullUpTo(t, |t|) && 1 <= r <= WIRE_BUFFER_LENGTH
    ensures DrainChunks(t + [Drain(r)]) && FullUpTo(t + [Drain(r)], |t|)
    ensures Drained(t + [Drain(r)]) == Drained(t) + r
  {
    assert (t + [Drain(r)])[..|t|] == t;
  }

  /**
   The inner loop of the discard branch: remove `n` bytes in transfers of
   at most the wire buffer length.
   */
  method DiscardBytes(s: Sensor, n: nat) returns (s': Sensor, t: seq<Op>)
    requires n <= |s.fifo| && n < 0x8000
    ensures s'.fifo == s.fifo[n..] && s'.now == s.now && s'.pending == s.pending
    ensures Stream(s) == s.fifo[..n] + Stream(s')
    ensures Drained(t) == n
    ensures DrainChunks(t) && FullUpTo(t, |t| - 1)
  {
    var left := n;
    s' := s;
    t := [];
    while left != 0
      invariant Discarding(s, n, left, s', t)
      decreases left
    {
      left, s', t := DrainOnce(s, n, left, s', t);
    }
    assert s.fifo == s.fifo[..n] + s.fifo[n..];
  }

  /** The state of the transfer loop with `left` bytes still to remove. */
  ghost predicate Discarding(s: Sensor, n: nat, left: nat, s': Sensor, t: seq<Op>)
  {
    && n <= |s.fifo| && left <= n
    && s'.fifo == s.fifo[n - left..] && s'.now == s.now && s'.pending == s.pending
    && Drained(t) == n - left
    && DrainChunks(t) && FullUpTo(t, |t| - 1)
    && (left != 0 ==> FullUpTo(t, |t|))
  }

  /** One transfer: at most a wire buffer's worth of bytes. */
  method DrainOnce(ghost s: Sensor, ghost n: nat, left: nat, s1: Sensor, t1: seq<Op>)
      returns (left': nat, s': Sensor, t: seq<Op>)
    requires Discarding(s, n, left, s1, t1) && left != 0
    ensures Discarding(s, n, left', s', t) && left' < left
  {
    var remove := if left < WIRE_BUFFER_LENGTH then left else WIRE_BUFFER_LENGTH;
    var f := GetFifoBytes(s1, remove);
    AppendChunk(t1, remove);
    s' := f.s;
    t := t1 + [Drain(remove)];
    left' := left - remove;
  }

  /**
   The discard branch: `while ((fifoC = count()) > 42)` drop all but the
   last packet's worth of bytes. There is no timer check in this loop.
   */
  method DiscardToOnePacket(s: Sensor) returns (s': Sensor, c: int, t: seq<Op>, ghost dropped: seq<Byte>)
    requires Bounded(s)
    ensures Bounded(s') && Stream(s) == dropped + Stream(s')
    ensures c <= PACKET_LENGTH as int && c == ToInt16(|s'.fifo|)
    ensures s.now < s'.now
    ensures DelayBound(s'.pending, MaxDelay(s.pending))
    ensures |t| >= 1 && t[|t| - 1] == CountPoll(|s'.fifo|)
    ensures Drained(t) == |dropped|
    ensures DrainsBounded(t) && NoPacketRead(t)
    ensures PACKET_LENGTH <= |s.fifo| ==> PACKET_LENGTH <= |s'.fifo|
    ensures Static(s) ==> Static(s')
    ensures Static(s) && PACKET_LENGTH <= |s.fifo| < 0x8000 ==>
      c == PACKET_LENGTH as int && s'.fifo == s.fifo[|s.fifo| - PACKET_LENGTH..] && |dropped| == |s.fifo| - PACKET_LENGTH
  {
    var p := GetFifoCount(s);
    s' := p.s;
    c := ToInt16(p.count);
    t := [CountPoll(p.count)];
    dropped := [];
    assert Drained(t) == 0 by { assert t[..0] == []; }
    while c > PACKET_LENGTH as int
      invariant Draining(s, s', c, t, dropped)
      decreases |Stream(s')|
    {
      s', c, t, dropped := DiscardStep(s, s', c, t, dropped);
    }
  }

  /** The state of the discard loop after each count poll. */
  ghost predicate Draining(s: Sensor, s': Sensor, c: int, t: seq<Op>, dropped: seq<Byte>)
  {
    && Bounded(s') && Stream(s) == dropped + Stream(s')
    && c == ToInt16(|s'.fifo|)
    && s.now < s'.now
    && DelayBound(s'.pending, MaxDelay(s.pending))
    && |t| >= 1 && t[|t| - 1] == CountPoll(|s'.fifo|)
    && Drained(t) == |dropped|
    && DrainsBounded(t) && NoPacketRead(t)
    && (PACKET_LENGTH <= |s.fifo| ==> PACKET_LENGTH <= |s'.fifo|)
    && (Static(s) ==> Static(s'))
    && (Static(s) && PACKET_LENGTH <= |s.fifo| < 0x8000 ==>
          s'.fifo == s.fifo[|dropped|..] && |dropped| <= |s.fifo| - PACKET_LENGTH
          && (c > PACKET_LENGTH as int ==> |dropped| == 0)
          && (c <= PACKET_LENGTH as int ==> |dropped| == |s.fifo| - PACKET_LENGTH))
  }

  /** One iteration of the discard loop: drop the excess, then poll the count again. */
  method DiscardStep(ghost s: Sensor, s1: Sensor, c1: int, t1: seq<Op>, ghost dropped1: seq<Byte>)
      returns (s': Sensor, c: int, t: seq<Op>, ghost dropped: seq<Byte>)
    requires Draining(s, s1, c1, t1, dropped1) && c1 > PACKET_LENGTH as int
    ensures Draining(s, s', c, t, dropped)
    ensures |Stream(s')| < |Stream(s1)|
  {
    var excess := c1 - PACKET_LENGTH as int;
    assert c1 == |s1.fifo|;
    ghost var gone := s1.fifo[..excess];
    var s2, t2 := DiscardBytes(s1, excess);
    TraceAppend(t1, t2);
    dropped := dropped1 + gone;
    var p := GetFifoCount(s2);
    s' := p.s;
    c := ToInt16(p.count);
    DelayBoundLater(s2.pending, MaxDelay(s.pending));
    assert Stream(s) == dropped + Stream(s') by {
      assert Stream(s) == dropped1 + (gone + Stream(s2));
    }
    if Static(s) && PACKET_LENGTH <= |s.fifo| < 0x8000 {
      assert s'.fifo == s2.fifo == s1.fifo[excess..];
      assert s1.fifo[excess..] == s.fifo[|dropped|..];
    }
    TraceAppend(t1 + t2, [CountPoll(p.count)]);
    assert Drained([CountPoll(p.count)]) == 0 by {
      assert [CountPoll(p.count)][..0] == [];
    }
    t := t1 + t2 + [CountPoll(p.count)];
  }

  /**
   The wait after a reset: `while (!(fifoC = count()) && elapsed <= timeout);`
   */
  method WaitForData(s: Sensor, start: int) returns (s': Sensor, c: int, t: seq<Op>)
    requires Bounded(s)
    ensures Bounded(s') && Stream(s') == Stream(s)
    ensures c == ToInt16(|s'.fifo|)
    ensures c != 0 || s'.now - start > FIFO_TIMEOUT as int
    ensures s.now < s'.now
    ensures DelayBound(s'.pending, MaxDelay(s.pending))
    ensures |t| >= 1 && OnlyPolls(t) && t[|t| - 1] == CountPoll(|s'.fifo|)
    ensures |s.fifo| <= |s'.fifo|
    ensures Static(s) ==> Static(s') && s'.fifo == s.fifo
  {
    var p := GetFifoCount(s);
    s' := p.s;
    c := ToInt16(p.count);
    t := [CountPoll(p.count)];
    while c == 0 && s'.now - start <= FIFO_TIMEOUT as int
      invariant Bounded(s') && Stream(s') == Stream(s)
      invariant c == ToInt16(|s'.fifo|)
      invariant s.now < s'.now
      invariant DelayBound(s'.pending, MaxDelay(s.pending))
      invariant |t| >= 1 && OnlyPolls(t) && t[|t| - 1] == CountPoll(|s'.fifo|)
      invariant |s.fifo| <= |s'.fifo|
      invariant Static(s) ==> Static(s') && s'.fifo == s.fifo
      decreases FIFO_TIMEOUT as int + 1 - (s'.now - start)
    {
      p := GetFifoCount(s');
      s' := p.s;
      c := ToInt16(p.count);
      t := t + [CountPoll(p.count)];
    }
  }

  /** The count the reader sees at its first poll. */
  function FirstCount(s0: Sensor): nat
  {
    |s0.fifo| + |NextArrival(s0.pending).bytes|
  }

  /** `p` followed by `rest` is how `all` ends. */
  predicate EndsWithPacket(all: seq<Byte>, p: seq<Byte>, rest: seq<Byte>)
  {
    |p| + |rest| <= |all| && all[|all| - |rest| - |p|..] == p + rest
  }

  lemma EndsWithPacketOf(pre: seq<Byte>, p: seq<Byte>, rest: seq<Byte>)
    ensures EndsWithPacket(pre + p + rest, p, rest)
  {
    assert (pre + p + rest)[|pre|..] == p + rest;
  }

  /** The overflow branch: reset the FIFO, then wait for data or the timeout. */
  method ResetAndWait(s: Sensor, start: int) returns (s': Sensor, c: int, t: seq<Op>, ghost gone: seq<Byte>)
    requires Bounded(s)
    ensures Bounded(s') && Stream(s) == gone + Stream(s') && gone == s.fifo
    ensures c == ToInt16(|s'.fifo|)
    ensures s.now < s'.now
    ensures DelayBound(s'.pending, MaxDelay(s.pending))
    ensures |t| >= 2 && t[0] == FifoReset && Drained(t) == 0
    ensures DrainsBounded(t) && NoPacketRead(t)
    ensures c != 0 || s'.now - start > FIFO_TIMEOUT as int
    ensures Static(s) ==> Static(s') && s'.fifo == []
  {
    gone := s.fifo;
    s' := ResetFifo(s);
    var t2;
    s', c, t2 := WaitForData(s', start);
    DrainedOfPolls(t2);
    DrainedAppend([FifoReset], t2);
    assert Drained([FifoReset]) == 0 by { assert [FifoReset][..0] == []; }
    t := [FifoReset] + t2;
  }

  /**
   One pass of the reader's outer loop up to the zero test: poll the
   count, and reset-and-wait above 200 bytes or drain down to one packet
   above 42 bytes. `gone` is what the pass removed from the FIFO.
   */
  method Settle(s: Sensor, start: int) returns (s': Sensor, c: int, t: seq<Op>, ghost gone: seq<Byte>)
    requires Bounded(s)
    ensures Bounded(s') && Stream(s) == gone + Stream(s')
    ensures c == ToInt16(|s'.fifo|)
    ensures s.now < s'.now
    ensures DelayBound(s'.pending, MaxDelay(s.pending))
    ensures |t| >= 1 && t[0] == CountPoll(FirstCount(s))
    ensures Drained(t) <= |gone|
    ensures DrainsBounded(t) && NoPacketRead(t)
    ensures c == 0 ==> t == [CountPoll(0)] || s'.now - start > FIFO_TIMEOUT as int
    ensures FirstCount(s) == 0 ==> c == 0 && t == [CountPoll(0)]
    ensures OVERFLOW_THRESHOLD < FirstCount(s) < 0x8000 ==>
      |t| >= 2 && t[1] == FifoReset && |gone| >= FirstCount(s)
    ensures Static(s) ==> Static(s')
    ensures Static(s) && |s.fifo| <= PACKET_LENGTH ==>
      s'.fifo == s.fifo && c == |s.fifo| && gone == [] && s'.now <= s.now + MaxDelay(s.pending)
      && Drained(t) == 0
    ensures Static(s) && PACKET_LENGTH < |s.fifo| <= OVERFLOW_THRESHOLD ==>
      c == PACKET_LENGTH as int && s'.fifo == s.fifo[|s.fifo| - PACKET_LENGTH..] && Drained(t) == |s.fifo| - PACKET_LENGTH
    ensures Static(s) && OVERFLOW_THRESHOLD < |s.fifo| < 0x8000 ==> c == 0 && s'.fifo == []
  {
    var p := GetFifoCount(s);
    s' := p.s;
    c := ToInt16(p.count);
    t := [CountPoll(p.count)];
    gone := [];
    assert Drained(t) == 0 by { assert t[..0] == []; }
    if c > PACKET_LENGTH as int {
      if c > OVERFLOW_THRESHOLD as int {
        var t2;
        s', c, t2, gone := ResetAndWait(s', start);
        TraceAppend(t, t2);
        t := t + t2;
      } else {
        var t2;
        ghost var dropped;
        s', c, t2, dropped := DiscardToOnePacket(s');
        TraceAppend(t, t2);
        gone := dropped;
        t := t + t2;
      }
    }
  }

  /** No gap in the oracle is longer than `m`, so neither is the longest. */
  lemma {:induction false} MaxDelayAtMost(p: seq<Arrival>, m: int)
    requires DelayBound(p, m) && m >= 1
    ensures MaxDelay(p) <= m
  {
    if p != [] {
      assert DelayBound(p[1..], m) by {
        assert forall i :: 0 <= i < |p[1..]| ==> p[1..][i] == p[i + 1];
      }
      MaxDelayAtMost(p[1..], m);
    }
  }

  /**
   The state of the reader's outer loop at the top of a pass: `first` on
   entry, and otherwise after a pass that saw a partial packet before the
   timeout. `consumed` is every byte removed so far.
   */
  ghost predicate SyncState(s0: Sensor, s: Sensor, trace: seq<Op>, consumed: seq<Byte>, first: bool)
  {
    && Bounded(s) && Stream(s0) == consumed + Stream(s)
    && s0.now <= s.now
    && DelayBound(s.pending, MaxDelay(s0.pending))
    && (first ==> s == s0 && trace == [] && consumed == [])
    && (!first ==> |s.fifo| > 0 && s.now - s0.now <= FIFO_TIMEOUT as int)
    && (!first ==> |trace| >= 1 && trace[0] == CountPoll(FirstCount(s0)) && FirstCount(s0) != 0)
    && (!first && OVERFLOW_THRESHOLD < FirstCount(s0) < 0x8000 ==>
          |trace| >= 2 && trace[1] == FifoReset && |consumed| >= FirstCount(s0))
    && DrainsBounded(trace) && NoPacketRead(trace)
    && (Static(s0) ==> Static(s))
    && (Static(s0) && |s0.fifo| < 0x8000 && !first ==> 1 <= |s0.fifo| < PACKET_LENGTH && s.fifo == s0.fifo)
  }

  /** One pass of the outer loop, with the trace and the removed bytes accumulated. */
  method SyncPass(ghost s0: Sensor, start: int, s: Sensor, trace: seq<Op>, ghost consumed: seq<Byte>, ghost first: bool)
      returns (s': Sensor, c: int, trace': seq<Op>, ghost consumed': seq<Byte>)
    requires start == s0.now
    requires SyncState(s0, s, trace, consumed, first)
    ensures Bounded(s') && Stream(s0) == consumed' + Stream(s')
    ensures c == ToInt16(|s'.fifo|)
    ensures s.now < s'.now && DelayBound(s'.pending, MaxDelay(s0.pending))
    ensures |trace'| >= 1 && trace'[0] == CountPoll(FirstCount(s0))
    ensures DrainsBounded(trace') && NoPacketRead(trace')
    ensures c == 0 ==> trace' == [CountPoll(0)] || s'.now - start > FIFO_TIMEOUT as int
    ensures FirstCount(s0) == 0 ==> c == 0 && trace' == [CountPoll(0)]
    ensures OVERFLOW_THRESHOLD < FirstCount(s0) < 0x8000 ==>
      |trace'| >= 2 && trace'[1] == FifoReset && |consumed'| >= FirstCount(s0)
    ensures Static(s0) ==> Static(s')
    ensures Static(s0) && |s0.fifo| <= PACKET_LENGTH ==>
      s'.fifo == s0.fifo && c == |s0.fifo| && s'.now <= s.now + MaxDelay(s0.pending)
    ensures Static(s0) && PACKET_LENGTH <= |s0.fifo| <= OVERFLOW_THRESHOLD ==>
      c == PACKET_LENGTH as int && s'.fifo == s0.fifo[|s0.fifo| - PACKET_LENGTH..]
      && Drained(trace') == |s0.fifo| - PACKET_LENGTH
    ensures Static(s0) && OVERFLOW_THRESHOLD < |s0.fifo| < 0x8000 ==> c == 0 && s'.fifo == []
  {
    var t;
    ghost var gone;
    s', c, t, gone := Settle(s, start);
    consumed' := consumed + gone;
    trace' := trace + t;
    MaxDelayAtMost(s.pending, MaxDelay(s0.pending));
    if first {
      assert trace' == t;
    } else {
      assert t[0] != CountPoll(0);
    }
    StaticPass(s0, s, trace, consumed, first, s', c, t);
  }

  /** What one pass does when no byte arrives any more, in terms of the loop's entry state. */
  lemma StaticPass(s0: Sensor, s: Sensor, trace: seq<Op>, consumed: seq<Byte>, first: bool,
                   s': Sensor, c: int, t: seq<Op>)
    requires SyncState(s0, s, trace, consumed, first)
    requires Static(s) ==> Static(s')
    requires Static(s) && |s.fifo| <= PACKET_LENGTH ==>
      s'.fifo == s.fifo && c == |s.fifo| && s'.now <= s.now + MaxDelay(s.pending) && Drained(t) == 0
    requires Static(s) && PACKET_LENGTH < |s.fifo| <= OVERFLOW_THRESHOLD ==>
      c == PACKET_LENGTH as int && s'.fifo == s.fifo[|s.fifo| - PACKET_LENGTH..] && Drained(t) == |s.fifo| - PACKET_LENGTH
    requires Static(s) && OVERFLOW_THRESHOLD < |s.fifo| < 0x8000 ==> c == 0 && s'.fifo == []
    ensures Static(s0) ==> Static(s')
    ensures Static(s0) && |s0.fifo| <= PACKET_LENGTH ==>
      s'.fifo == s0.fifo && c == |s0.fifo| && s'.now <= s.now + MaxDelay(s0.pending)
    ensures Static(s0) && PACKET_LENGTH <= |s0.fifo| <= OVERFLOW_THRESHOLD ==>
      c == PACKET_LENGTH as int && s'.fifo == s0.fifo[|s0.fifo| - PACKET_LENGTH..]
      && Drained(trace + t) == |s0.fifo| - PACKET_LENGTH
    ensures Static(s0) && OVERFLOW_THRESHOLD < |s0.fifo| < 0x8000 ==> c == 0 && s'.fifo == []
  {
    if Static(s0) {
      MaxDelayAtMost(s.pending, MaxDelay(s0.pending));
      if PACKET_LENGTH <= |s0.fifo| <= OVERFLOW_THRESHOLD {
        assert first;
        assert trace + t == t;
        assert s0.fifo[0..] == s0.fifo;
      }
    }
  }

  /**
   The do-while loop of `mpu6050_get_current_FIFO_packet`: repeat until
   the count is exactly one packet, giving up when the count is 0 or when a
   partial count is seen after the timeout. The timer is read once on
   entry; `consumed` is every byte the loop removed.
   */
  method SyncToOnePacket(s0: Sensor) returns (found: bool, s: Sensor, trace: seq<Op>, ghost consumed: seq<Byte>)
    requires Bounded(s0)
    ensures Bounded(s) && Stream(s0) == consumed + Stream(s)
    ensures |trace| >= 1 && trace[0] == CountPoll(FirstCount(s0))
    ensures DrainsBounded(trace) && NoPacketRead(trace)
    ensures found ==> |s.fifo| == PACKET_LENGTH
    ensures !found ==> trace == [CountPoll(0)] || s.now - s0.now > FIFO_TIMEOUT as int
    ensures FirstCount(s0) == 0 ==> !found && trace == [CountPoll(0)]
    ensures OVERFLOW_THRESHOLD < FirstCount(s0) < 0x8000 ==>
      |trace| >= 2 && trace[1] == FifoReset && |consumed| >= FirstCount(s0)
    ensures Static(s0) && |s0.fifo| < 0x8000 ==>
      Static(s) && (found <==> PACKET_LENGTH <= |s0.fifo| <= OVERFLOW_THRESHOLD)
    ensures Static(s0) && PACKET_LENGTH <= |s0.fifo| <= OVERFLOW_THRESHOLD ==>
      s.fifo == s0.fifo[|s0.fifo| - PACKET_LENGTH..] && Drained(trace) == |s0.fifo| - PACKET_LENGTH
    ensures Static(s0) && 1 <= |s0.fifo| < PACKET_LENGTH ==>
      s.fifo == s0.fifo && FIFO_TIMEOUT as int < s.now - s0.now <= FIFO_TIMEOUT + MaxDelay(s0.pending)
    ensures Static(s0) && OVERFLOW_THRESHOLD < |s0.fifo| < 0x8000 ==>
      s.fifo == [] && s.now - s0.now > FIFO_TIMEOUT as int
  {
    var start := s0.now;
    s := s0;
    trace := [];
    consumed := [];
    ghost var first := true;
    while true
      invariant SyncState(s0, s, trace, consumed, first)
      decreases if first then FIFO_TIMEOUT as int + 2 else FIFO_TIMEOUT as int + 1 - (s.now - start)
    {
      var c;
      s, c, trace, consumed := SyncPass(s0, start, s, trace, consumed, first);
      if c == 0 {
        return false, s, trace, consumed;
      }
      var received := c == PACKET_LENGTH as int;
      if !received && s.now - start > FIFO_TIMEOUT as int {
        return false, s, trace, consumed;
      }
      if received {
        return true, s, trace, consumed;
      }
      first := false;
    }
  }

  /**
   `mpu6050_get_current_FIFO_packet`: bring the FIFO down to exactly one
   packet and copy it into `fifoPacket`. The count is narrowed into an
   `int16_t`; the timer is read once at the start and compared with the
   timeout after a partial count and in the wait that follows a reset.
   Returns 1 with a fresh packet, 0 otherwise; 2 is never returned.
   */
  method GetCurrentFifoPacket(s0: Sensor, fifoPacket: seq<Byte>)
      returns (ret: int, s: Sensor, packet: seq<Byte>, trace: seq<Op>)
    requires Bounded(s0)
    requires |fifoPacket| == PACKET_LENGTH
    ensures ret == 0 || ret == 1
    ensures |packet| == PACKET_LENGTH
    ensures |trace| >= 1 && trace[0] == CountPoll(FirstCount(s0))
    ensures DrainsBounded(trace)
    ensures ret == 0 ==> packet == fifoPacket && NoPacketRead(trace)
    ensures ret == 0 ==> trace == [CountPoll(0)] || s.now - s0.now > FIFO_TIMEOUT as int
    ensures FirstCount(s0) == 0 ==> ret == 0 && trace == [CountPoll(0)]
    ensures ret == 1 ==> trace[|trace| - 1] == ReadPacket(PACKET_LENGTH) && NoPacketRead(trace[..|trace| - 1])
    ensures ret == 1 ==> s.fifo == [] && EndsWithPacket(Stream(s0), packet, Flatten(s.pending))
    ensures OVERFLOW_THRESHOLD < FirstCount(s0) < 0x8000 ==>
      |trace| >= 2 && trace[1] == FifoReset &&
      (ret == 1 ==> |Stream(s0)| - |Flatten(s.pending)| - PACKET_LENGTH >= FirstCount(s0))
    ensures Static(s0) && |s0.fifo| < 0x8000 ==> (ret == 1 <==> PACKET_LENGTH <= |s0.fifo| <= OVERFLOW_THRESHOLD)
    ensures Static(s0) && |s0.fifo| < 0x8000 && ret == 1 ==>
      packet == s0.fifo[|s0.fifo| - PACKET_LENGTH..] && Drained(trace) == |s0.fifo| - PACKET_LENGTH
    ensures Static(s0) && 1 <= |s0.fifo| < PACKET_LENGTH ==>
      s.fifo == s0.fifo && FIFO_TIMEOUT as int < s.now - s0.now <= FIFO_TIMEOUT + MaxDelay(s0.pending)
    ensures Static(s0) && OVERFLOW_THRESHOLD < |s0.fifo| < 0x8000 ==>
      s.fifo == [] && s.now - s0.now > FIFO_TIMEOUT as int
  {
    var found;
    ghost var consumed;
    found, s, trace, consumed := SyncToOnePacket(s0);
    if !found {
      return 0, s, fifoPacket, trace;
    }
    s, packet, trace := ReadFoundPacket(s0, s, trace, consumed);
    ret := 1;
  }

  /** The successful end of the reader: one 42-byte read of the packet left in the FIFO. */
  method ReadFoundPacket(ghost s0: Sensor, s1: Sensor, t1: seq<Op>, ghost consumed: seq<Byte>)
      returns (s: Sensor, packet: seq<Byte>, trace: seq<Op>)
    requires |s1.fifo| == PACKET_LENGTH && Stream(s0) == consumed + Stream(s1)
    requires |t1| >= 1 && DrainsBounded(t1) && NoPacketRead(t1)
    ensures packet == s1.fifo && s.fifo == [] && s.pending == s1.pending && s.now == s1.now
    ensures |trace| == |t1| + 1 && trace[..|t1|] == t1 && trace[|t1|] == ReadPacket(PACKET_LENGTH)
    ensures trace[0] == t1[0] && (|t1| >= 2 ==> trace[1] == t1[1])
    ensures DrainsBounded(trace) && Drained(trace) == Drained(t1)
    ensures EndsWithPacket(Stream(s0), packet, Flatten(s.pending))
    ensures |Stream(s0)| - |Flatten(s.pending)| - PACKET_LENGTH == |consumed|
  {
    var f := GetFifoBytes(s1, PACKET_LENGTH);
    s := f.s;
    packet := f.data;
    assert Stream(s0) == consumed + packet + Flatten(s.pending) by {
      assert Stream(s1) == packet + Flatten(s.pending);
    }
    EndsWithPacketOf(consumed, packet, Flatten(s.pending));
    TraceAppend(t1, [ReadPacket(PACKET_LENGTH)]);
    assert Drained([ReadPacket(PACKET_LENGTH)]) == 0 by {
      assert [ReadPacket(PACKET_LENGTH)][..0] == [];
    }
    trace := t1 + [ReadPacket(PACKET_LENGTH)];
    assert trace[..|t1|] == t1;
  }
}
