/** Runs that mix writes, flushes and reads on one file: how many bytes too many the flush as written
    makes the device receive, and that none are with the pending part handed over. */
module FileRuns {
  import opened Bytes
  import opened IOFile

  datatype Call = WriteOf(data: seq<u8>) | ReadOf(size: nat) | FlushNow

  /** What the calls so far say about a file: how many bytes are pending, and whether it may have read
      since the last flush. */
  datatype Track = Track(pending: nat, reading: bool)

  /** A change between reading and writing needs a flush in between. */
  predicate Allowed(m: Mode, tr: Track, c: Call) {
    match c
    case WriteOf(_) => CanWrite(m) && !tr.reading
    case ReadOf(_) => CanRead(m) && tr.pending == 0
    case FlushNow => true
  }

  function Next(b: BufferMode, size: nat, tr: Track, c: Call): (r: Track)
    requires tr.pending <= size
    ensures r.pending <= size
  {
    match c
    case WriteOf(data) => Track(PendingAfter(b, tr.pending, |data|, size), false)
    case ReadOf(_) => Track(tr.pending, true)
    case FlushNow => Track(0, false)
  }

  /** How many bytes too many a call hands over. */
  function Excess(size: nat, tr: Track, c: Call, front: bool): nat
    requires tr.pending <= size
  {
    if c.FlushNow? && !front && tr.pending > 0 then size - tr.pending else 0
  }

  function Data(c: Call): seq<u8> {
    if c.WriteOf? then c.data else []
  }

  // ---------- the first `n` calls ----------

  function TrackAt(b: BufferMode, size: nat, tr: Track, calls: seq<Call>, n: nat): (r: Track)
    requires tr.pending <= size && n <= |calls|
    ensures r.pending <= size
  {
    if n == 0 then tr else Next(b, size, TrackAt(b, size, tr, calls, n - 1), calls[n - 1])
  }

  function ExcessAt(b: BufferMode, size: nat, tr: Track, calls: seq<Call>, n: nat, front: bool): nat
    requires tr.pending <= size && n <= |calls|
  {
    if n == 0 then 0
    else
      ExcessAt(b, size, tr, calls, n - 1, front) +
      Excess(size, TrackAt(b, size, tr, calls, n - 1), calls[n - 1], front)
  }

  function DataAt(calls: seq<Call>, n: nat): seq<u8>
    requires n <= |calls|
  {
    if n == 0 then [] else DataAt(calls, n - 1) + Data(calls[n - 1])
  }

  predicate AllAllowed(m: Mode, b: BufferMode, size: nat, tr: Track, calls: seq<Call>)
    requires tr.pending <= size
  {
    forall n :: 0 <= n < |calls| ==> Allowed(m, TrackAt(b, size, tr, calls, n), calls[n])
  }

  /** Every one of the first `n` calls that is a flush comes with nothing pending or a full buffer. */
  predicate CleanFlushes(b: BufferMode, size: nat, tr: Track, calls: seq<Call>, n: nat)
    requires tr.pending <= size && n <= |calls|
  {
    forall k :: 0 <= k < n && calls[k].FlushNow? ==>
      var pending := TrackAt(b, size, tr, calls, k).pending;
      pending == 0 || pending == size
  }

  /** With the pending part handed over nothing is in excess; as written nothing is exactly when
      every flush is a clean one. */
  lemma {:induction false} ExcessIff(b: BufferMode, size: nat, tr: Track, calls: seq<Call>, n: nat, front: bool)
    requires tr.pending <= size && n <= |calls|
    ensures ExcessAt(b, size, tr, calls, n, front) == 0 <==> front || CleanFlushes(b, size, tr, calls, n)
  {
    hide Next, PendingAfter;
    if n > 0 {
      ExcessIff(b, size, tr, calls, n - 1, front);
    }
  }

  // ---------- the calls on a file ----------

  ghost predicate Tracks(f: File, tr: Track)
    reads f, f.buf
  {
    && f.Valid() && tr.pending <= f.buf.Length && |f.Pending()| == tr.pending
    && (f.lastOp == ReadOp && f.pos > 0 ==> tr.reading)
  }

  /** Everything written: handed over, or pending. */
  ghost function Out(f: File): seq<u8>
    requires f.Valid()
    reads f, f.buf, f.device
  {
    f.device.output + f.Pending()
  }

  /** Everything left to read: buffered, or on the device. */
  ghost function In(f: File): seq<u8>
    requires f.Valid()
    reads f, f.buf, f.device
  {
    f.Buffered() + f.device.input
  }

  /** What one call says about the flags, and a read about its length. */
  twostate predicate Flags(f: File, c: Call, taken: nat)
    requires old(f.Valid())
    reads f, f.buf, f.device
  {
    if c.ReadOf? then ChunkRead(f, c.size, taken)
    else
      && f.device.readLog == old(f.device.readLog) && f.eof == old(f.eof)
      && (f.device.faults == old(f.device.faults) ==> f.err == old(f.err))
  }

  /** One call. `taken` is what it took from the input: delivered by a read, dropped by a flush. */
  method Perform(f: File, c: Call, front: bool, ghost tr: Track) returns (ghost taken: seq<u8>)
    requires Tracks(f, tr) && Allowed(f.mode, tr, c)
    modifies f, f.buf, f.device
    ensures f.Valid() && f.device.faults >= old(f.device.faults)
    ensures taken + In(f) == old(In(f)) && (c.WriteOf? ==> taken == []) && (c.ReadOf? ==> |taken| <= c.size)
    ensures c.FlushNow? ==> taken == old(f.Buffered())
    ensures Flags(f, c, |taken|)
    ensures f.device.faults == old(f.device.faults) ==>
      && Tracks(f, Next(f.bufMode, f.buf.Length, tr, c))
      && |Out(f)| == |old(Out(f))| + |Data(c)| + Excess(f.buf.Length, tr, c, front)
      && (Excess(f.buf.Length, tr, c, front) == 0 ==> Out(f) == old(Out(f)) + Data(c))
  {
    match c
    case WriteOf(data) =>
      PerformWrite(f, data, tr);
      taken := [];
    case ReadOf(size) =>
      taken := ReadChunk(f, size);
    case FlushNow =>
      taken := f.Buffered();
      var _, m := f.Flush(front);
  }

  method PerformWrite(f: File, data: seq<u8>, ghost tr: Track)
    requires Tracks(f, tr) && CanWrite(f.mode) && !tr.reading
    modifies f, f.buf, f.device
    ensures f.Valid() && f.device.faults >= old(f.device.faults) && In(f) == old(In(f))
    ensures Flags(f, WriteOf(data), 0)
    ensures f.device.faults == old(f.device.faults) ==>
      Tracks(f, Next(f.bufMode, f.buf.Length, tr, WriteOf(data))) && Out(f) == old(Out(f)) + data
  {
    ghost var output, pending := f.device.output, f.Pending();
    var _, _, k := f.Write(data);
    Assoc(output, pending, data);
    Rejoined(output, pending + data, k);
  }

  /** The file is where the first `n` calls lead, `out` being the output before them. */
  ghost predicate Followed(f: File, calls: seq<Call>, n: nat, front: bool, tr: Track, out: seq<u8>)
    requires f.Valid() && n <= |calls| && tr.pending <= f.buf.Length
    reads f, f.buf, f.device
  {
    var excess := ExcessAt(f.bufMode, f.buf.Length, tr, calls, n, front);
    && Tracks(f, TrackAt(f.bufMode, f.buf.Length, tr, calls, n))
    && |Out(f)| == |out| + |DataAt(calls, n)| + excess
    && (excess == 0 ==> Out(f) == out + DataAt(calls, n))
  }

  method Advance(f: File, calls: seq<Call>, n: nat, front: bool, ghost tr: Track, ghost out: seq<u8>)
    returns (ghost taken: seq<u8>, ghost more: seq<ReadReply>)
    requires f.Valid() && n < |calls| && tr.pending <= f.buf.Length && Followed(f, calls, n, front, tr, out)
    requires AllAllowed(f.mode, f.bufMode, f.buf.Length, tr, calls)
    modifies f, f.buf, f.device
    ensures f.Valid() && f.device.faults >= old(f.device.faults) && taken + In(f) == old(In(f))
    ensures f.device.readLog == old(f.device.readLog) + more
    ensures ReadStep(calls[n], |old(In(f))|, |taken|, more) && f.eof == (old(f.eof) || AnyEnded(more))
    ensures f.device.faults == old(f.device.faults) ==> f.err == (old(f.err) || AnyFailed(more))
    ensures f.device.faults == old(f.device.faults) ==> Followed(f, calls, n + 1, front, tr, out)
  {
    hide Next, Excess, PendingAfter, Allowed, Data;
    ghost var at := TrackAt(f.bufMode, f.buf.Length, tr, calls, n);
    ghost var log := f.device.readLog;
    taken := Perform(f, calls[n], front, at);
    more := Since(log, f.device.readLog);
    Assoc(out, DataAt(calls, n), Data(calls[n]));
  }

  /** Every read got what it asked for. */
  ghost predicate Complete(calls: seq<Call>, taken: seq<seq<u8>>)
    requires |taken| <= |calls|
  {
    forall k :: 0 <= k < |taken| && calls[k].ReadOf? ==> |taken[k]| == calls[k].size
  }

  /** Every read got what it asked for, as far as there was as much of the `start` bytes of input. */
  ghost predicate TakesAll(calls: seq<Call>, taken: seq<seq<u8>>, start: nat)
    requires |taken| <= |calls|
  {
    forall k :: 0 <= k < |taken| ==> Takes(calls[k], |Concat(taken[..k])|, |taken[k]|, start)
  }

  predicate Takes(c: Call, before: nat, taken: nat, start: nat) {
    c.ReadOf? ==> before + taken == Min(before + c.size, start)
  }

  /** What the device has said during a run decides about both. */
  ghost predicate ReadsFollowed(calls: seq<Call>, taken: seq<seq<u8>>, start: nat, said: seq<ReadReply>)
    requires |taken| <= |calls|
  {
    (Complete(calls, taken) <==> NoneShort(said)) && (Generous(said) ==> TakesAll(calls, taken, start))
  }

  lemma CompleteNext(calls: seq<Call>, taken: seq<seq<u8>>, chunk: seq<u8>)
    requires |taken| < |calls|
    ensures Complete(calls, taken + [chunk]) <==>
      Complete(calls, taken) && (calls[|taken|].ReadOf? ==> |chunk| == calls[|taken|].size)
  {
    var now := taken + [chunk];
    assert now[|taken|] == chunk && forall k :: 0 <= k < |taken| ==> now[k] == taken[k];
  }

  lemma TakesNext(calls: seq<Call>, taken: seq<seq<u8>>, start: nat, chunk: seq<u8>)
    requires |taken| < |calls| && TakesAll(calls, taken, start)
    requires Takes(calls[|taken|], |Concat(taken)|, |chunk|, start)
    ensures TakesAll(calls, taken + [chunk], start)
  {
    hide Concat, Takes;
    var now := taken + [chunk];
    forall k | 0 <= k < |now|
      ensures Takes(calls[k], |Concat(now[..k])|, |now[k]|, start)
    {
      if k < |taken| {
        assert now[..k] == taken[..k] && now[k] == taken[k];
      } else {
        assert now[..k] == taken;
      }
    }
  }

  /** What one call says about that: `left` bytes of input are left, and the device says `more`. */
  ghost predicate ReadStep(c: Call, left: nat, taken: nat, more: seq<ReadReply>) {
    if c.ReadOf? then (taken == c.size <==> NoneShort(more)) && (Generous(more) ==> taken == Min(c.size, left))
    else more == []
  }

  lemma ReadsNext(calls: seq<Call>, taken: seq<seq<u8>>, start: nat, said: seq<ReadReply>, chunk: seq<u8>,
    more: seq<ReadReply>)
    requires |taken| < |calls| && ReadsFollowed(calls, taken, start, said) && |Concat(taken)| <= start
    requires ReadStep(calls[|taken|], start - |Concat(taken)|, |chunk|, more)
    ensures ReadsFollowed(calls, taken + [chunk], start, said + more)
  {
    hide NoneShort, Generous, Concat, Complete, TakesAll;
    SaidMore(said, more);
    NothingYet([], []);
    CompleteNext(calls, taken, chunk);
    if Generous(said) && Generous(more) {
      TakesNext(calls, taken, start, chunk);
    }
  }

  /** Over any allowed run of writes, reads and flushes, up to the first device fault: what was taken
      from the input and what is left of it is what there was, in order; and without a fault the
      output is what there was and everything written, in order, exactly when the pending part is handed
      over or every flush is a clean one; it is always longer than that by just the excess. The reads are
      complete, and the flags set, just as the device answered. */
  method FileRun(f: File, calls: seq<Call>, front: bool, ghost tr: Track) returns (done: nat, ghost taken: seq<seq<u8>>)
    requires Tracks(f, tr) && AllAllowed(f.mode, f.bufMode, f.buf.Length, tr, calls)
    modifies f, f.buf, f.device
    ensures f.Valid() && done <= |calls| && |taken| == done
    ensures Concat(taken) + In(f) == old(In(f))
    ensures old(f.device.readLog) <= f.device.readLog
    ensures var said := Since(old(f.device.readLog), f.device.readLog);
      && ReadsFollowed(calls, taken, |old(In(f))|, said) && f.eof == (old(f.eof) || AnyEnded(said))
      && (f.device.faults == old(f.device.faults) ==> f.err == (old(f.err) || AnyFailed(said)))
    ensures f.device.faults == old(f.device.faults) ==>
      && done == |calls|
      && |Out(f)| == |old(Out(f))| + |DataAt(calls, done)| + ExcessAt(f.bufMode, f.buf.Length, tr, calls, done, front)
      && (Out(f) == old(Out(f)) + DataAt(calls, done) <==>
          front || CleanFlushes(f.bufMode, f.buf.Length, tr, calls, done))
  {
    hide NoneShort, Generous, AnyFailed, AnyEnded, Concat, Followed, ReadsFollowed, ReadStep;
    ghost var out, start := Out(f), In(f);
    ghost var log, eof, err, said := f.device.readLog, f.eof, f.err, [];
    var before := f.device.faults;
    done, taken := 0, [];
    NothingTaken(f, calls, front, tr);
    while done < |calls| && f.device.faults == before
      invariant f.Valid() && done <= |calls| && |taken| == done && f.device.faults >= before
      invariant Concat(taken) + In(f) == start
      invariant f.device.readLog == log + said && ReadsFollowed(calls, taken, |start|, said)
      invariant f.eof == (eof || AnyEnded(said))
      invariant f.device.faults == before ==> f.err == (err || AnyFailed(said))
      invariant f.device.faults == before ==> Followed(f, calls, done, front, tr, out)
    {
      ghost var chunk, more := Advance(f, calls, done, front, tr, out);
      Snoc(taken, chunk, In(f));
      SaidMore(said, more);
      ReadsNext(calls, taken, |start|, said, chunk, more);
      taken := taken + [chunk];
      said := said + more;
      done := done + 1;
    }
    FollowedMeans(f, calls, done, front, tr, out);
    assert Since(log, f.device.readLog) == said;
  }

  lemma NothingTaken(f: File, calls: seq<Call>, front: bool, tr: Track)
    requires Tracks(f, tr)
    ensures Concat([]) + In(f) == In(f) && ReadsFollowed(calls, [], |In(f)|, [])
    ensures !AnyFailed([]) && !AnyEnded([])
    ensures Followed(f, calls, 0, front, tr, Out(f))
  {
  }

  lemma FollowedMeans(f: File, calls: seq<Call>, n: nat, front: bool, tr: Track, out: seq<u8>)
    requires f.Valid() && n <= |calls| && tr.pending <= f.buf.Length
    ensures Followed(f, calls, n, front, tr, out) ==>
      && |Out(f)| == |out| + |DataAt(calls, n)| + ExcessAt(f.bufMode, f.buf.Length, tr, calls, n, front)
      && (Out(f) == out + DataAt(calls, n) <==> front || CleanFlushes(f.bufMode, f.buf.Length, tr, calls, n))
  {
    ExcessIff(f.bufMode, f.buf.Length, tr, calls, n, front);
  }
}
