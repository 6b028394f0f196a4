/** The buffered file object over an abstract device. A device may take or give any prefix of
    what it is asked for, and may report an error whatever it did. */
module IOFile {
  import opened Bytes

  /** What the device said to one read: it was asked for `asked` bytes, of which the caller could not do
      without `needed`; it gave `given` and had `left` more. */
  datatype ReadReply = ReadReply(asked: nat, needed: nat, given: nat, failed: bool, left: nat)

  /** ... and to one write. */
  datatype WriteReply = WriteReply(asked: nat, given: nat, failed: bool)

  /** Did it give all that was needed, each time? */
  ghost predicate NoneShort(replies: seq<ReadReply>) {
    forall x :: x in replies ==> x.given >= x.needed
  }

  /** Did it give all that was asked, or all it had, each time? */
  ghost predicate Generous(replies: seq<ReadReply>) {
    forall x :: x in replies ==> x.given == x.asked || x.left == 0
  }

  ghost predicate AnyFailed(replies: seq<ReadReply>) {
    exists x :: x in replies && x.failed
  }

  /** Did it give too little without an error, ever? */
  ghost predicate AnyEnded(replies: seq<ReadReply>) {
    exists x :: x in replies && x.given < x.needed && !x.failed
  }

  function Min(a: nat, b: nat): nat {
    if a < b then a else b
  }

  class Device {
    ghost var readLog: seq<ReadReply>
    ghost var writeLog: seq<WriteReply>
    var input: seq<u8>    // not yet read
    var output: seq<u8>   // everything written so far
    var faults: nat       // writes that were cut short or reported an error
    var silent: nat       // ... cut short and reported none

    method Write(data: seq<u8>) returns (n: nat, failed: bool)
      modifies this
      ensures n <= |data| && output == old(output) + data[..n] && input == old(input)
      ensures faults == if failed || n < |data| then old(faults) + 1 else old(faults)
      ensures silent == if !failed && n < |data| then old(silent) + 1 else old(silent)
      ensures readLog == old(readLog) && writeLog == old(writeLog) + [WriteReply(|data|, n, failed)]
    {
      n :| 0 <= n <= |data|;
      failed := *;
      output := output + data[..n];
      writeLog := writeLog + [WriteReply(|data|, n, failed)];
      if failed || n < |data| {
        faults := faults + 1;
      }
      if !failed && n < |data| {
        silent := silent + 1;
      }
    }

    /** Reads into `dst[lo..]`. */
    method Read(dst: array<u8>, lo: nat, ghost needed: nat) returns (n: nat, failed: bool)
      requires lo <= dst.Length
      modifies this, dst
      ensures n <= |old(input)| && lo + n <= dst.Length
      ensures dst[lo..lo + n] == old(input)[..n]
      ensures forall i :: 0 <= i < dst.Length && !(lo <= i < lo + n) ==> dst[i] == old(dst[i])
      ensures input == old(input)[n..] && output == old(output)
      ensures faults == old(faults) && silent == old(silent) && writeLog == old(writeLog)
      ensures readLog == old(readLog) + [ReadReply(dst.Length - lo, needed, n, failed, |input|)]
    {
      n :| 0 <= n <= |input| && lo + n <= dst.Length;
      failed := *;
      forall k | 0 <= k < n {
        dst[lo + k] := input[k];
      }
      input := input[n..];
      readLog := readLog + [ReadReply(dst.Length - lo, needed, n, failed, |input|)];
    }
  }

  datatype Op = NoOp | ReadOp | WriteOp
  datatype BufferMode = Unbuffered | Full

  /** The mode letters that matter here: r, w, a and +. */
  datatype Mode = Mode(read: bool, write: bool, append: bool, plus: bool)

  predicate CanRead(m: Mode) {
    m.read || m.append || m.plus
  }

  predicate CanWrite(m: Mode) {
    m.write || m.plus
  }

  datatype Flags = BadMode | Flags(mode: Mode, binary: bool, exclude: bool)

  /** What section 7.21.5.3 of ISO C11 calls a mode, give or take order and repetition: one of the three main
      letters in front, and none of them behind it. */
  predicate IsMode(s: string) {
    s != "" && s[0] in "rwa" && forall i :: 1 <= i < |s| ==> s[i] in "+bx"
  }

  /** `ParseModeFlags`, on what is left of the string when a trailing NUL is cut. */
  method ParseModeFlags(s: string) returns (r: Flags)
    ensures r.Flags? <==> IsMode(s)
    ensures r.Flags? ==>
      && r.mode == Mode(s[0] == 'r', s[0] == 'w', s[0] == 'a', '+' in s)
      && r.binary == ('b' in s) && r.exclude == ('x' in s)
  {
    if s == "" || s[0] !in "rwa" {
      return BadMode;
    }
    var m, binary, exclude := Mode(false, false, false, false), false, false;
    var mainModes := 0;
    for i := 0 to |s|
      invariant forall j :: 0 <= j < i ==> s[j] in "rwa+bx"
      invariant mainModes == 0 <==> i == 0
      invariant mainModes == 1 <==> i > 0 && forall j :: 1 <= j < i ==> s[j] in "+bx"
      invariant m.plus == ('+' in s[..i]) && binary == ('b' in s[..i]) && exclude == ('x' in s[..i])
      invariant mainModes == 1 ==> m == Mode(s[0] == 'r', s[0] == 'w', s[0] == 'a', m.plus)
      invariant mainModes == 0 ==> !m.read && !m.write && !m.append
    {
      assert s[..i + 1] == s[..i] + [s[i]];
      match s[i]
      case 'a' => m, mainModes := m.(append := true), mainModes + 1;
      case 'r' => m, mainModes := m.(read := true), mainModes + 1;
      case 'w' => m, mainModes := m.(write := true), mainModes + 1;
      case '+' => m := m.(plus := true);
      case 'b' => binary := true;
      case 'x' => exclude := true;
      case _ =>
        assert s[i] !in "rwa+bx";
        return BadMode;
    }
    assert s[..|s|] == s;
    if mainModes != 1 {
      return BadMode;
    }
    return Flags(m, binary, exclude);
  }

  /** A file opened for appending alone can be read and cannot be written, where the standard has it the
      other way round; in every other mode both are as the standard has them. */
  method ModeRights(s: string) returns (r: Flags)
    requires IsMode(s)
    ensures r.Flags?
    ensures (CanRead(r.mode) <==> s[0] == 'r' || '+' in s) <==> !(s[0] == 'a' && '+' !in s)
    ensures (CanWrite(r.mode) <==> s[0] == 'w' || s[0] == 'a' || '+' in s) <==> !(s[0] == 'a' && '+' !in s)
  {
    r := ParseModeFlags(s);
  }

  /** "ab" is such a mode. */
  method AppendWitness() returns (r: Flags)
    ensures r.Flags? && CanRead(r.mode) && !CanWrite(r.mode)
  {
    r := ParseModeFlags("ab");
  }

  function Concat(chunks: seq<seq<u8>>): seq<u8> {
    if chunks == [] then [] else chunks[0] + Concat(chunks[1..])
  }

  /** How many of a call's own bytes are among the first `k` of `pending` ones followed by its own. */
  function OwnBytes(k: nat, pending: nat): nat {
    if k <= pending then 0 else k - pending
  }

  /** How many bytes are pending after a write of `len` bytes behind `pending` ones. */
  function PendingAfter(m: BufferMode, pending: nat, len: nat, size: nat): nat
    requires pending <= size
  {
    if m == Unbuffered || len > (size - pending) + size then 0
    else if len <= size - pending then pending + len
    else if len - (size - pending) < size then len - (size - pending)
    else 0
  }

  ghost predicate SameFrom(a: seq<u8>, b: seq<u8>, n: nat)
    requires |a| == |b|
  {
    forall i :: n <= i < |a| ==> a[i] == b[i]
  }

  class File {
    const device: Device
    const mode: Mode
    const bufMode: BufferMode
    const buf: array<u8>
    var pos: nat
    var readLimit: nat
    var lastOp: Op
    var eof: bool
    var err: bool

    ghost predicate Valid()
      reads this
    {
      && (CanRead(mode) ==> buf.Length > 0)
      && pos <= buf.Length
      && (lastOp == ReadOp ==> pos <= readLimit <= buf.Length && (pos == 0 ==> readLimit == 0))
      && (lastOp != ReadOp ==> readLimit == 0)
      && (lastOp == NoOp ==> pos == 0)
    }

    /** Written, but not handed to the device yet. */
    ghost function Pending(): seq<u8>
      requires Valid()
      reads this, buf
    {
      if lastOp == WriteOp then buf[..pos] else []
    }

    /** Fetched from the device, but not delivered yet. */
    ghost function Buffered(): seq<u8>
      requires Valid()
      reads this, buf
    {
      if lastOp == ReadOp then buf[pos..readLimit] else []
    }

    /** A readable file without a buffer gets the one byte kept for ungetc. */
    constructor (device: Device, mode: Mode, bufMode: BufferMode, size: nat)
      ensures Valid() && fresh(buf)
      ensures this.device == device && this.mode == mode && this.bufMode == bufMode
      ensures buf.Length == if CanRead(mode) && size == 0 then 1 else size
      ensures Pending() == [] && Buffered() == [] && lastOp == NoOp && !eof && !err
    {
      this.device, this.mode, this.bufMode := device, mode, bufMode;
      buf := new u8[if CanRead(mode) && size == 0 then 1 else size];
      pos, readLimit, lastOp, eof, err := 0, 0, NoOp, false, false;
    }

    // ---------- reading ----------

    /** Copies `count` bytes from the buffer to `data[off..]`. */
    method Deliver(data: array<u8>, off: nat, count: nat)
      requires data != buf && off + count <= data.Length && pos + count <= buf.Length
      modifies this`pos, data
      ensures pos == old(pos) + count
      ensures data[..off] == old(data[..off]) && data[off..off + count] == buf[old(pos)..pos]
      ensures SameFrom(old(data[..]), data[..], off + count)
    {
      forall k | 0 <= k < count {
        data[off + k] := buf[pos + k];
      }
      pos := pos + count;
    }

    /** How a fetch that fell short is remembered. */
    method NoteShort(short: bool, failed: bool)
      modifies this`eof, this`err
      ensures eof == (old(eof) || (short && !failed)) && err == (old(err) || failed)
    {
      if failed || short {
        if !failed {
          eof := true;
        } else {
          err := true;
        }
      }
    }

    /** What was so when a read began: what the device had said until then, and the flags. */
    ghost function ReadState(): (seq<ReadReply>, bool, bool)
      reads this, device
    {
      (device.readLog, eof, err)
    }

    /** The device was asked once, for `asked` bytes of which `needed` were; `got` is what was delivered of
        its answer, the error code its own, and a short answer is remembered. */
    ghost predicate AskedOnce(was: (seq<ReadReply>, bool, bool), asked: nat, needed: nat, got: int, failed: bool)
      reads this, device
    {
      && |device.readLog| == |was.0| + 1
      && var x := device.readLog[|was.0|];
      && device.readLog == was.0 + [x]
      && x.asked == asked && x.needed == needed && x.left == |device.input|
      && got == Min(x.given, needed) && failed == x.failed
      && eof == (was.1 || (x.given < needed && !x.failed)) && err == (was.2 || x.failed)
    }

    /** What a read of `len` bytes comes to, `available` of them buffered: the device is asked exactly when
        these are too few. */
    ghost predicate HasRead(was: (seq<ReadReply>, bool, bool), available: nat, len: nat, n: nat, failed: bool)
      requires Valid()
      reads this, buf, device
    {
      && (len <= available ==> n == len && !failed && ReadState() == was)
      && (len > available ==>
          AskedOnce(was, if len - available > buf.Length then len - available else buf.Length, len - available,
            n - available, failed) && pos == if len - available > buf.Length then 0 else n - available)
      && (n < len ==> Buffered() == [])
    }

    /** Unbuffered read behind the `off` bytes already delivered. */
    method ReadDirect(data: array<u8>, off: nat) returns (n: nat, failed: bool)
      requires Valid() && data != buf && off < data.Length && lastOp == ReadOp && pos == 0
      modifies this`eof, this`err, data, device
      ensures off <= n <= data.Length && device.output == old(device.output) && device.faults == old(device.faults)
      ensures data[..off] == old(data[..off]) && SameFrom(old(data[..]), data[..], n)
      ensures data[off..n] + device.input == old(device.input) && device.writeLog == old(device.writeLog)
      ensures AskedOnce(old(ReadState()), data.Length - off, data.Length - off, n - off, failed)
    {
      var fetched, e := device.Read(data, off, data.Length - off);
      NoteShort(off + fetched < data.Length, e);
      return off + fetched, e;
    }

    /** Refills the buffer and delivers from it. */
    method ReadRefill(data: array<u8>, off: nat) returns (n: nat, failed: bool)
      requires Valid() && data != buf && off < data.Length && data.Length - off <= buf.Length
      requires lastOp == ReadOp && pos == 0 && readLimit == 0
      modifies this, buf, data, device
      ensures Valid() && lastOp == ReadOp && device.output == old(device.output) && device.faults == old(device.faults)
      ensures off <= n <= data.Length
      ensures data[..off] == old(data[..off]) && SameFrom(old(data[..]), data[..], n)
      ensures data[off..n] + (Buffered() + device.input) == old(device.input) && device.writeLog == old(device.writeLog)
      ensures AskedOnce(old(ReadState()), buf.Length, data.Length - off, n - off, failed) && pos == n - off
      ensures n < data.Length ==> Buffered() == []
    {
      var toFetch := data.Length - off;
      var fetched, e := Fill(toFetch);
      var transfer := if fetched >= toFetch then toFetch else fetched;
      NoteShort(fetched < toFetch, e);
      ghost var got := buf[0..fetched];
      Deliver(data, off, transfer);
      assert buf[0..fetched] == buf[0..transfer] + buf[transfer..fetched];
      Assoc(buf[0..transfer], buf[transfer..fetched], device.input);
      return off + transfer, e;
    }

    /** Fetches into the clean buffer. */
    method Fill(ghost needed: nat) returns (fetched: nat, failed: bool)
      requires Valid() && lastOp == ReadOp && pos == 0 && readLimit == 0
      modifies this`readLimit, buf, device
      ensures fetched <= buf.Length && readLimit == fetched
      ensures device.output == old(device.output) && device.faults == old(device.faults)
      ensures buf[0..fetched] + device.input == old(device.input) && device.writeLog == old(device.writeLog)
      ensures device.readLog == old(device.readLog) + [ReadReply(buf.Length, needed, fetched, failed, |device.input|)]
    {
      fetched, failed := device.Read(buf, 0, needed);
      assert buf[0..fetched] == buf[0..0 + fetched];
      readLimit := fetched;
    }

    /** `readUnlocked`. What is delivered, still buffered and still on the device is together
        what was there before, in order. The device is asked exactly when less is buffered than asked for, and
        its answer decides about the count, the error code and the two flags. When it gives all it can, so does the
        read. */
    method Read(data: array<u8>) returns (n: nat, failed: bool)
      requires Valid() && data != buf && (lastOp == WriteOp ==> pos == 0)
      modifies this, buf, data, device
      ensures Valid() && device.output == old(device.output) && device.faults == old(device.faults)
      ensures !CanRead(mode) ==>
        n == 0 && failed && err && data[..] == old(data[..]) && device.input == old(device.input)
        && eof == old(eof) && lastOp == old(lastOp) && device.readLog == old(device.readLog)
        && Buffered() == old(Buffered())
      ensures CanRead(mode) ==> HasRead(old(ReadState()), |old(Buffered())|, data.Length, n, failed)
      ensures CanRead(mode) && Generous(device.readLog[|old(device.readLog)|..]) ==>
        n == Min(data.Length, |old(Buffered() + device.input)|)
      ensures device.writeLog == old(device.writeLog) && old(device.readLog) <= device.readLog
      ensures CanRead(mode) ==> n <= data.Length && lastOp == ReadOp && SameFrom(old(data[..]), data[..], n)
      ensures CanRead(mode) ==> data[..n] + (Buffered() + device.input) == old(Buffered() + device.input)
    {
      if !CanRead(mode) {
        err := true;
        return 0, true;
      }
      n, failed := ReadStream(data);
      ghost var asked := device.readLog[|old(device.readLog)|..];
      assert |asked| == 1 ==> asked[0] == device.readLog[|old(device.readLog)|] && asked[0] in asked;
    }

    method ReadStream(data: array<u8>) returns (n: nat, failed: bool)
      requires Valid() && CanRead(mode) && data != buf && (lastOp == WriteOp ==> pos == 0)
      modifies this, buf, data, device
      ensures Valid() && device.output == old(device.output) && device.faults == old(device.faults)
      ensures n <= data.Length && lastOp == ReadOp && SameFrom(old(data[..]), data[..], n)
      ensures data[..n] + (Buffered() + device.input) == old(Buffered() + device.input)
      ensures HasRead(old(ReadState()), |old(Buffered())|, data.Length, n, failed)
      ensures device.writeLog == old(device.writeLog)
    {
      hide AskedOnce;
      lastOp := ReadOp;
      var len, available := data.Length, readLimit - pos;
      ghost var front, input := Buffered(), device.input;
      if len <= available {
        TakeFront(data, len);
        Assoc(data[..len], Buffered(), input);
        return len, false;
      }
      TakeFront(data, available);
      assert data[..available] == front;
      pos, readLimit := 0, 0;
      n, failed := ReadBehind(data, available);
      Joined(data, available, n, front, Buffered() + device.input);
    }

    lemma Joined(data: array<u8>, off: nat, n: nat, front: seq<u8>, rest: seq<u8>)
      requires off <= n <= data.Length && data[..off] == front
      ensures data[..n] + rest == front + (data[off..n] + rest)
    {
      assert data[..n] == front + data[off..n];
      Assoc(front, data[off..n], rest);
    }

    /** The first `count` buffered bytes go to the front of `data`. */
    method TakeFront(data: array<u8>, count: nat)
      requires Valid() && data != buf && lastOp == ReadOp && count <= data.Length && pos + count <= readLimit
      modifies this`pos, data
      ensures Valid() && data[..count] + Buffered() == old(Buffered())
      ensures SameFrom(old(data[..]), data[..], count)
    {
      Deliver(data, 0, count);
      assert data[..count] == data[0..0 + count];
    }

    /** The part of a read that needs the device. */
    method ReadBehind(data: array<u8>, off: nat) returns (n: nat, failed: bool)
      requires Valid() && CanRead(mode) && data != buf && off < data.Length
      requires lastOp == ReadOp && pos == 0 && readLimit == 0
      modifies this, buf, data, device
      ensures Valid() && lastOp == ReadOp && device.output == old(device.output) && device.faults == old(device.faults)
      ensures off <= n <= data.Length
      ensures data[..off] == old(data[..off]) && SameFrom(old(data[..]), data[..], n)
      ensures data[off..n] + (Buffered() + device.input) == old(device.input) && device.writeLog == old(device.writeLog)
      ensures HasRead(old(ReadState()), off, data.Length, n, failed)
    {
      if data.Length - off > buf.Length {
        n, failed := ReadDirect(data, off);
        assert Buffered() == [] && Buffered() + device.input == device.input;
      } else {
        n, failed := ReadRefill(data, off);
      }
    }

    // ---------- writing ----------

    /** Does a write end with what the device said? An unbuffered one only when it fell short. */
    ghost predicate Stops(x: WriteReply, direct: bool) {
      x.given < x.asked || (x.failed && !direct)
    }

    /** Has the last thing that the device said ended the write? */
    twostate predicate Stopped(direct: bool)
      reads this, device
    {
      |device.writeLog| > |old(device.writeLog)| && Stops(device.writeLog[|device.writeLog| - 1], direct)
    }

    /** What a write of `len` own bytes, among `all` those behind `pending` others, comes to: `k` bytes of `all`
        have reached the device. When it was `Stopped`, the buffer was dropped and the call reports exactly its own
        bytes that got through; else the rest is pending and the call reports its whole length. The error code is
        the last one of the device. */
    twostate predicate Ended(all: seq<u8>, pending: nat, len: nat, n: nat, failed: bool, k: nat, direct: bool)
      requires Valid()
      reads this, buf, device
    {
      && k <= |all| && device.output == old(device.output) + all[..k]
      && old(device.writeLog) <= device.writeLog && device.readLog == old(device.readLog) && eof == old(eof)
      && (failed <==>
          |device.writeLog| > |old(device.writeLog)| && device.writeLog[|device.writeLog| - 1].failed)
      && (if Stopped(direct) then err && pos == 0 && n == OwnBytes(k, pending)
          else err == old(err) && Pending() == all[k..] && n == len)
    }

    twostate predicate Written(data: seq<u8>, n: nat, failed: bool, k: nat, direct: bool)
      requires old(Valid()) && Valid()
      reads this, buf, device
    {
      Ended(old(Pending()) + data, |old(Pending())|, |data|, n, failed, k, direct)
    }

    /** The write goes past the buffer: there is none, or two of them would not hold it. */
    predicate Direct(len: nat)
      requires pos <= buf.Length
      reads this
    {
      bufMode == Unbuffered || len > (buf.Length - pos) + buf.Length
    }

    /** A call that reports less than it was given has set `err`, and it returns no error code with
        that exactly when a device call was cut short without one. */
    twostate predicate ShortReported(data: seq<u8>, n: nat, failed: bool)
      reads this, device
    {
      && (n < |data| ==> err)
      && (|data| > 0 ==> (n < |data| && !failed <==> device.silent > old(device.silent)))
    }

    /** `writeUnlockedNone` */
    method WriteNone(data: seq<u8>) returns (n: nat, failed: bool, ghost k: nat)
      requires Valid() && lastOp == WriteOp
      modifies this, device
      ensures Valid() && Written(data, n, failed, k, true) && lastOp == WriteOp && pos == 0
      ensures device.faults == old(device.faults) ==>
        Pending() == (old(Pending()) + data)[k..] && n == |data| && !failed && err == old(err)
      ensures ShortReported(data, n, failed)
      ensures device.input == old(device.input) && device.faults >= old(device.faults)
    {
      ghost var all := Pending() + data;
      k := 0;
      if pos > 0 {
        var size := pos;
        var m, e := Straight(buf[..size]);
        k := m;
        pos := 0;
        assert all[..k] == buf[..size][..m];
        if m < size {
          return 0, e, k;
        }
      }
      ghost var sofar := k;
      n, failed := Straight(data);
      k := k + n;
      assert all[..k] == all[..sofar] + data[..n];
    }

    /** Past the buffer to the device. */
    method Straight(data: seq<u8>) returns (n: nat, failed: bool)
      modifies this`err, device
      ensures n <= |data| && err == (old(err) || n < |data|)
      ensures device.output == old(device.output) + data[..n] && device.input == old(device.input)
      ensures device.faults == if failed || n < |data| then old(device.faults) + 1 else old(device.faults)
      ensures device.silent == if !failed && n < |data| then old(device.silent) + 1 else old(device.silent)
      ensures device.readLog == old(device.readLog)
      ensures device.writeLog == old(device.writeLog) + [WriteReply(|data|, n, failed)]
    {
      n, failed := device.Write(data);
      if n < |data| {
        err := true;
      }
    }

    /** The unbuffered case of `writeUnlocked`: the flush finds nothing to do. */
    method WriteUnbuffered(data: seq<u8>) returns (n: nat, failed: bool, ghost k: nat)
      requires Valid() && lastOp == WriteOp
      modifies this, device
      ensures Valid() && Written(data, n, failed, k, true) && lastOp == WriteOp && pos == 0
      ensures device.faults == old(device.faults) ==>
        Pending() == (old(Pending()) + data)[k..] && n == |data| && !failed && err == old(err)
      ensures ShortReported(data, n, failed)
      ensures device.input == old(device.input) && device.faults >= old(device.faults)
    {
      n, failed, k := WriteNone(data);
      ghost var output, said := device.output, device.writeLog;
      var _, _ := Flush(false);
      assert device.output == output && device.writeLog == said;
    }

    /** Copies `data` behind the pending bytes. */
    method Append(data: seq<u8>)
      requires Valid() && lastOp == WriteOp && pos + |data| <= buf.Length
      modifies this`pos, buf
      ensures Valid() && Pending() == old(Pending()) + data
    {
      ghost var front := buf[..pos];
      forall k | 0 <= k < |data| {
        buf[pos + k] := data[k];
      }
      assert buf[..pos] == front && buf[pos..pos + |data|] == data;
      pos := pos + |data|;
    }

    /** `writeUnlockedFull`: into the buffer, past one flush into the clean buffer or straight on
        to the device, or, when two buffers would not hold it, unbuffered. */
    method WriteFull(data: seq<u8>) returns (n: nat, failed: bool, ghost k: nat)
      requires Valid() && lastOp == WriteOp
      modifies this, buf, device
      ensures Valid() && Written(data, n, failed, k, |data| > (buf.Length - old(pos)) + buf.Length) && lastOp == WriteOp
      ensures !Stopped(|data| > (buf.Length - old(pos)) + buf.Length) ==>
        pos == PendingAfter(Full, old(pos), |data|, buf.Length)
      ensures |data| <= buf.Length - old(pos) ==> k == 0
      ensures device.faults == old(device.faults) ==>
        Pending() == (old(Pending()) + data)[k..] && n == |data| && !failed && err == old(err)
      ensures device.faults == old(device.faults) ==> pos == PendingAfter(Full, old(pos), |data|, buf.Length)
      ensures ShortReported(data, n, failed)
      ensures device.input == old(device.input) && device.faults >= old(device.faults)
    {
      ghost var pending := Pending();
      ghost var all := pending + data;
      var initPos, space, len := pos, buf.Length - pos, |data|;
      if len > space + buf.Length {
        n, failed, k := WriteNone(data);
        return;
      }
      var split := if len < space then len else space;
      var first, remainder := data[..split], data[split..];
      assert all == pending + first + remainder;
      Append(first);
      if |remainder| == 0 {
        return len, false, 0;
      }
      n, failed, k := WriteAcross(data, split);
    }

    /** The second half of a full-buffer write: the buffer is full, and `data[split..]` is left. */
    method WriteAcross(data: seq<u8>, split: nat) returns (n: nat, failed: bool, ghost k: nat)
      requires Valid() && lastOp == WriteOp && pos == buf.Length
      requires split < |data| && split <= pos && |data| - split <= buf.Length
      modifies this, buf, device
      ensures Valid() && lastOp == WriteOp && device.input == old(device.input) && device.faults >= old(device.faults)
      ensures Ended(old(Pending()) + data[split..], |old(Pending())| - split, |data|, n, failed, k, false)
      ensures !Stopped(false) ==> pos == if |data| - split < buf.Length then |data| - split else 0
      ensures device.faults == old(device.faults) ==>
        Pending() == (old(Pending()) + data[split..])[k..] && n == |data| && !failed && err == old(err)
      ensures device.faults == old(device.faults) ==> pos == if |data| - split < buf.Length then |data| - split else 0
      ensures ShortReported(data, n, failed)
    {
      ghost var full := buf[..];
      var remainder := data[split..];
      ghost var all := full + remainder;
      var initPos, flushSize := pos - split, pos;
      var m, e := device.Write(buf[..]);
      assert all[..m] == full[..m];
      pos := 0;
      if e || m < flushSize {
        err := true;
        return if m <= initPos then 0 else m - initPos, e, m;
      }
      assert all[m..] == remainder;
      if |remainder| < buf.Length {
        Append(remainder);
        return |data|, false, m;
      }
      var w, e2 := device.Write(remainder);
      assert all[..m + w] == full + remainder[..w];
      if e2 || w < |remainder| {
        err := true;
        return split + w, e2, m + w;
      }
      return |data|, false, m + w;
    }

    /** `writeUnlocked`. Mixing reads and writes needs a flush in between. */
    method Write(data: seq<u8>) returns (n: nat, failed: bool, ghost k: nat)
      requires Valid() && (lastOp == ReadOp ==> pos == 0)
      modifies this, buf, device
      ensures Valid() && device.input == old(device.input) && device.faults >= old(device.faults)
      ensures !CanWrite(mode) ==>
        n == 0 && failed && err && device.output == old(device.output) && Pending() == old(Pending())
        && eof == old(eof) && lastOp == old(lastOp)
        && device.readLog == old(device.readLog) && device.writeLog == old(device.writeLog)
      ensures CanWrite(mode) ==> Written(data, n, failed, k, old(Direct(|data|))) && lastOp == WriteOp
      ensures CanWrite(mode) && !Stopped(old(Direct(|data|))) ==>
        pos == PendingAfter(bufMode, |old(Pending())|, |data|, buf.Length)
      ensures CanWrite(mode) && bufMode == Full && |data| <= buf.Length - old(pos) ==> k == 0
      ensures CanWrite(mode) && device.faults == old(device.faults) ==>
        Pending() == (old(Pending()) + data)[k..] && n == |data| && !failed && err == old(err)
        && pos == PendingAfter(bufMode, |old(Pending())|, |data|, buf.Length)
      ensures ShortReported(data, n, failed)
    {
      if !CanWrite(mode) {
        err := true;
        return 0, true, 0;
      }
      ghost var pending := Pending();
      lastOp := WriteOp;
      assert Pending() == pending;
      if bufMode == Unbuffered {
        n, failed, k := WriteUnbuffered(data);
      } else {
        n, failed, k := WriteFull(data);
      }
    }

    /** `flushUnlocked`. As written (`front` false) it offers the device the whole buffer, not the
        pending part. The bytes written and pending are kept exactly when there was nothing to flush
        or the device took none of it, or took just the pending bytes and reported no error. So on a
        device without faults that is: when nothing is pending, or the buffer is full. With `front`
        it offers the pending part, and on a device without faults always keeps them. */
    method Flush(front: bool) returns (failed: bool, ghost m: nat)
      requires Valid()
      modifies this, device
      ensures Valid() && device.input == old(device.input) && lastOp == old(lastOp) &&
        device.faults >= old(device.faults) && device.readLog == old(device.readLog) && eof == old(eof)
      ensures device.writeLog == old(device.writeLog) +
        if old(lastOp) == WriteOp && old(pos) > 0
        then [WriteReply(if front then old(pos) else buf.Length, m, failed)] else []
      ensures !(old(lastOp) == WriteOp && old(pos) > 0) ==>
        m == 0 && pos == 0 && !failed && err == old(err) && device.output == old(device.output) &&
        Buffered() == [] && device.faults == old(device.faults) && device.silent == old(device.silent)
      ensures old(lastOp) == WriteOp && old(pos) > 0 ==>
        && m <= buf.Length && device.output == old(device.output) + buf[..m]
        && (failed || m < old(pos) ==> err && pos == old(pos))
        && (!failed && m >= old(pos) ==> err == old(err) && pos == 0)
        && (m < old(pos) ==> (failed <==> device.silent == old(device.silent)))
        && (device.faults == old(device.faults) ==> m == (if front then old(pos) else buf.Length) && !failed)
      ensures device.output + Pending() == old(device.output + Pending()) <==>
        (old(lastOp) != WriteOp || old(pos) == 0 || m == 0 || (m == old(pos) && !failed))
      ensures device.faults == old(device.faults) ==>
        (device.output + Pending() == old(device.output + Pending()) <==>
        front || old(lastOp) != WriteOp || old(pos) == 0 || old(pos) == buf.Length)
    {
      m := 0;
      if lastOp == WriteOp && pos > 0 {
        ghost var before, pending := device.output, buf[..pos];
        var offered := if front then pos else buf.Length;
        var taken, e := device.Write(buf[..offered]);
        m := taken;
        assert buf[..offered][..m] == buf[..m];
        if e || taken < pos {
          err := true;
          assert |device.output + Pending()| == |before + pending| + m;
          return e, m;
        }
        pos := 0;
        assert |device.output + Pending()| == |before| + m;
        if m == |pending| {
          assert device.output + Pending() == before + pending;
        }
      } else if lastOp == ReadOp && pos > 0 {
        pos, readLimit := 0, 0;
      }
      return false, m;
    }
  }

  // ---------- runs ----------

  method WriteChunk(f: File, chunk: seq<u8>)
    requires f.Valid() && CanWrite(f.mode) && (f.lastOp == ReadOp ==> f.pos == 0)
    modifies f, f.buf, f.device
    ensures f.Valid() && f.lastOp == WriteOp && f.device.faults >= old(f.device.faults)
    ensures f.device.faults == old(f.device.faults) ==>
      f.device.output + f.Pending() == old(f.device.output + f.Pending()) + chunk
  {
    ghost var output, pending := f.device.output, f.Pending();
    ghost var all := pending + chunk;
    var _, _, k := f.Write(chunk);
    Assoc(output, pending, chunk);
    Rejoined(output, all, k);
  }

  lemma Rejoined(a: seq<u8>, b: seq<u8>, k: nat)
    requires k <= |b|
    ensures (a + b[..k]) + b[k..] == a + b
  {
    Assoc(a, b[..k], b[k..]);
    assert b[..k] + b[k..] == b;
  }

  /** Over any run of writes on a device without faults, what the device got followed by what
      is pending is what was there before followed by everything written. */
  method WriteRun(f: File, chunks: seq<seq<u8>>)
    requires f.Valid() && CanWrite(f.mode) && (f.lastOp == ReadOp ==> f.pos == 0)
    modifies f, f.buf, f.device
    ensures f.Valid() && f.pos <= f.buf.Length
    ensures f.device.faults == old(f.device.faults) ==>
      f.device.output + f.Pending() == old(f.device.output + f.Pending()) + Concat(chunks)
  {
    ghost var start := f.device.output + f.Pending();
    ghost var faults := f.device.faults;
    assert chunks[..0] == [] && start + Concat(chunks[..0]) == start;
    for i := 0 to |chunks|
      invariant f.Valid() && (f.lastOp == ReadOp ==> f.pos == 0)
      invariant faults <= f.device.faults
      invariant f.device.faults == faults ==> f.device.output + f.Pending() == start + Concat(chunks[..i])
    {
      WriteChunk(f, chunks[i]);
      ConcatAppend(chunks, i);
      Assoc(start, Concat(chunks[..i]), chunks[i]);
    }
    assert chunks[..|chunks|] == chunks;
  }

  lemma Assoc(a: seq<u8>, b: seq<u8>, c: seq<u8>)
    ensures (a + b) + c == a + (b + c)
  {
  }

  lemma {:induction false} ConcatAppend(chunks: seq<seq<u8>>, i: nat)
    requires i < |chunks|
    ensures Concat(chunks[..i + 1]) == Concat(chunks[..i]) + chunks[i]
  {
    if i == 0 {
      var one := chunks[..1];
      assert one == [chunks[0]] && chunks[..0] == [] && one[1..] == [];
      assert Concat(one) == chunks[0] + Concat(one[1..]);
    } else {
      ConcatAppend(chunks[1..], i - 1);
      assert chunks[..i + 1][1..] == chunks[1..][..i] && chunks[..i][1..] == chunks[1..][..i - 1];
    }
  }

  /** What the device said since it had said `before`. */
  function Since(before: seq<ReadReply>, now: seq<ReadReply>): seq<ReadReply> {
    if |before| <= |now| then now[|before|..] else []
  }

  /** A read as far as its caller sees it: the flags are set as the device said, the read is complete exactly
      when the device gave what was needed, and takes all there is, or all it can, of a generous one. */
  twostate predicate ChunkRead(f: File, size: nat, n: nat)
    requires old(f.Valid())
    reads f, f.buf, f.device
  {
    var said := Since(old(f.device.readLog), f.device.readLog);
    && old(f.device.readLog) <= f.device.readLog
    && f.err == (old(f.err) || AnyFailed(said)) && f.eof == (old(f.eof) || AnyEnded(said))
    && (n == size <==> NoneShort(said))
    && (Generous(said) ==> n == Min(size, |old(f.Buffered() + f.device.input)|))
  }

  method ReadChunk(f: File, size: nat) returns (chunk: seq<u8>)
    requires f.Valid() && CanRead(f.mode) && (f.lastOp == WriteOp ==> f.pos == 0)
    modifies f, f.buf, f.device
    ensures f.Valid() && f.lastOp == ReadOp && |chunk| <= size && ChunkRead(f, size, |chunk|)
    ensures chunk + (f.Buffered() + f.device.input) == old(f.Buffered() + f.device.input)
    ensures f.device.output == old(f.device.output) && f.device.faults == old(f.device.faults)
    ensures f.device.writeLog == old(f.device.writeLog)
  {
    var data := new u8[size];
    ghost var before, available := f.device.readLog, |f.Buffered()|;
    var n, _ := f.Read(data);
    chunk := data[..n];
    ghost var said := Since(before, f.device.readLog);
    if size <= available {
      assert said == [];
    } else {
      assert said == [f.device.readLog[|before|]];
      assert said[0] in said;
    }
  }

  function Sum(sizes: seq<nat>): nat {
    if sizes == [] then 0 else Sum(sizes[..|sizes| - 1]) + sizes[|sizes| - 1]
  }

  /** Over any run of reads, what was delivered, what is buffered and what the device still has
      is the device's original stream, in order. All reads are complete exactly when the device never gave
      less than was needed; the flags say whether it reported an error, and whether it fell short without
      one; and when it always gave what it could, the run delivers all that was asked for, as far as there is as
      much. */
  method ReadRun(f: File, sizes: seq<nat>) returns (delivered: seq<seq<u8>>)
    requires f.Valid() && CanRead(f.mode) && (f.lastOp == WriteOp ==> f.pos == 0)
    modifies f, f.buf, f.device
    ensures f.Valid() && |delivered| == |sizes|
    ensures Concat(delivered) + f.Buffered() + f.device.input == old(f.Buffered() + f.device.input)
    ensures forall i :: 0 <= i < |sizes| ==> |delivered[i]| <= sizes[i]
    ensures old(f.device.readLog) <= f.device.readLog
    ensures var said := Since(old(f.device.readLog), f.device.readLog);
      && f.err == (old(f.err) || AnyFailed(said)) && f.eof == (old(f.eof) || AnyEnded(said))
      && ((forall i :: 0 <= i < |sizes| ==> |delivered[i]| == sizes[i]) <==> NoneShort(said))
      && (Generous(said) ==> |Concat(delivered)| == Min(Sum(sizes), |old(f.Buffered() + f.device.input)|))
  {
    hide NoneShort, Generous, AnyFailed, AnyEnded, Sum, Concat;
    ghost var start := f.Buffered() + f.device.input;
    ghost var before, err, eof := f.device.readLog, f.err, f.eof;
    ghost var said := [];
    delivered := [];
    NothingYet(sizes, start);
    for i := 0 to |sizes|
      invariant f.Valid() && (f.lastOp == WriteOp ==> f.pos == 0)
      invariant |delivered| == i && forall j :: 0 <= j < i ==> |delivered[j]| <= sizes[j]
      invariant Concat(delivered) + (f.Buffered() + f.device.input) == start
      invariant f.device.readLog == before + said
      invariant f.err == (err || AnyFailed(said)) && f.eof == (eof || AnyEnded(said))
      invariant (forall j :: 0 <= j < i ==> |delivered[j]| == sizes[j]) <==> NoneShort(said)
      invariant Generous(said) ==> |Concat(delivered)| == Min(Sum(sizes[..i]), |start|)
    {
      ghost var log := f.device.readLog;
      var chunk := ReadChunk(f, sizes[i]);
      ghost var more := Since(log, f.device.readLog);
      Snoc(delivered, chunk, f.Buffered() + f.device.input);
      ConcatSnoc(delivered, chunk);
      SaidMore(said, more);
      SumNext(sizes, i);
      delivered := delivered + [chunk];
      said := said + more;
    }
    Assoc(Concat(delivered), f.Buffered(), f.device.input);
    assert sizes[..|sizes|] == sizes;
    assert Since(before, f.device.readLog) == said;
  }

  lemma NothingYet(sizes: seq<nat>, start: seq<u8>)
    ensures Concat([]) == [] && Sum(sizes[..0]) == 0 && [] + start == start
    ensures NoneShort([]) && Generous([]) && !AnyFailed([]) && !AnyEnded([])
  {
  }

  lemma SumNext(sizes: seq<nat>, i: nat)
    requires i < |sizes|
    ensures Sum(sizes[..i + 1]) == Sum(sizes[..i]) + sizes[i]
  {
    assert sizes[..i + 1][..i] == sizes[..i];
  }

  lemma SaidMore(a: seq<ReadReply>, b: seq<ReadReply>)
    ensures NoneShort(a + b) <==> NoneShort(a) && NoneShort(b)
    ensures Generous(a + b) <==> Generous(a) && Generous(b)
    ensures AnyFailed(a + b) <==> AnyFailed(a) || AnyFailed(b)
    ensures AnyEnded(a + b) <==> AnyEnded(a) || AnyEnded(b)
  {
    assert forall x :: x in a + b <==> x in a || x in b;
  }

  lemma Snoc(chunks: seq<seq<u8>>, last: seq<u8>, rest: seq<u8>)
    ensures Concat(chunks + [last]) + rest == Concat(chunks) + (last + rest)
  {
    ConcatSnoc(chunks, last);
    Assoc(Concat(chunks), last, rest);
  }

  lemma ConcatSnoc(chunks: seq<seq<u8>>, last: seq<u8>)
    ensures Concat(chunks + [last]) == Concat(chunks) + last
  {
    var all := chunks + [last];
    ConcatAppend(all, |chunks|);
    assert all[..|chunks|] == chunks && all[..|chunks| + 1] == all;
  }

  /** One byte written to a four-byte buffer and flushed: the device receives four. */
  method FlushWitness(device: Device) returns (f: File)
    modifies device
    ensures device.faults == old(device.faults) ==> |device.output| == |old(device.output)| + 4
  {
    f := new File(device, Mode(false, true, false, false), Full, 4);
    var _, _, k := f.Write([7]);
    var _, _ := f.Flush(false);
  }

  /** One byte on an unbuffered file, and a device that takes none and reports nothing: the call
      reports nothing either. */
  method ShortWriteWitness(device: Device) returns (f: File, n: nat, failed: bool)
    modifies device
    ensures device.silent > old(device.silent) ==> n == 0 && !failed && f.err
  {
    f := new File(device, Mode(false, true, false, false), Unbuffered, 0);
    ghost var k;
    n, failed, k := f.Write([7]);
  }
}
