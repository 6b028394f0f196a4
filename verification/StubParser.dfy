/** The decoder of system-call stubs: it recognises an instruction by its first byte alone,
    skips by a fixed size per instruction, and remembers the last immediate moved to eax. */
module StubParser {
  import opened Bytes

  datatype Instruction =
    | Jne | MovImmToEax | MovImmToEcx | MovImmToEdx | Retn16 | Retn | CallImm
    | XorEcx | MovEspToEdx | CallEdx | KEnter | KCall
    | MovRcxToR10 | LeaEspOffToEdx | BitnessCheck | CallLargePtr
    | Unknown

  /** The low byte of the opcode. */
  function Primary(i: Instruction): u8 {
    match i
    case Jne => 0x75
    case MovImmToEax => 0xB8
    case MovImmToEcx => 0xB9
    case MovImmToEdx => 0xBA
    case Retn16 => 0xC2
    case Retn => 0xC3
    case CallImm => 0xE8
    case XorEcx => 0x33
    case MovEspToEdx => 0x8B
    case CallEdx => 0xFF
    case KEnter => 0x0F
    case KCall => 0x0F
    case MovRcxToR10 => 0x4C
    case LeaEspOffToEdx => 0x8D
    case BitnessCheck => 0xF6
    case CallLargePtr => 0x64
    case Unknown => 0x9A
  }

  function Size(i: Instruction): nat {
    match i
    case Jne => 2
    case MovImmToEax | MovImmToEcx | MovImmToEdx => 5
    case Retn16 => 3
    case Retn => 1
    case CallImm => 5
    case XorEcx | MovEspToEdx | CallEdx | KEnter | KCall => 2
    case MovRcxToR10 => 3
    case LeaEspOffToEdx => 4
    case BitnessCheck => 8
    case CallLargePtr => 7
    case Unknown => 0
  }

  function GetInstruction(first: u8): Instruction {
    if first == 0x0F then KCall
    else if first == 0x4C then MovRcxToR10
    else if first == 0x75 then Jne
    else if first == 0xC3 then Retn
    else if first == 0xB8 then MovImmToEax
    else if first == 0xB9 then MovImmToEcx
    else if first == 0xBA then MovImmToEdx
    else if first == 0xF6 then BitnessCheck
    else if first == 0xC2 then Retn16
    else if first == 0xE8 then CallImm
    else if first == 0x33 then XorEcx
    else if first == 0x8B then MovEspToEdx
    else if first == 0xFF then CallEdx
    else if first == 0x0F then KEnter
    else if first == 0x8D then LeaEspOffToEdx
    else if first == 0x64 then CallLargePtr
    else Unknown
  }

  /** `RanOff`: the bytes at hand end before the stub does; the source would read on. */
  datatype Result = Ok(call: nat) | IllegalInstruction | UnexpectedC2Retn | SyscallNotFound | RanOff

  const INVALID_SYSCALL: nat := 0xFFFF_FFFF

  function Little(b: seq<u8>): nat
    requires |b| == 4
  {
    b[0] as int + 0x100 * (b[1] as int) + 0x1_0000 * (b[2] as int) + 0x100_0000 * (b[3] as int)
  }

  /** The parser's variables: where it is, the last immediate, whether it saw a system call, and
      the positions of the instructions it looked at. */
  datatype State = State(pos: nat, call: nat, didSyscall: bool, visited: seq<nat>)

  const START: State := State(0, INVALID_SYSCALL, false, [])

  /** `do_parsing`; `visited` are the positions of the instructions it looked at. */
  method DoParsing(bytes: seq<u8>) returns (r: Result, visited: seq<nat>)
    ensures (r, visited) == Parsed(bytes, START)
  {
    var pos, i := 0, Unknown;
    var call, didSyscall := INVALID_SYSCALL, false;
    visited := [];
    ghost var all := Parsed(bytes, State(pos, call, didSyscall, visited));
    while i != Retn
      invariant pos <= |bytes|
      invariant all == if i == Retn then (Finish(call, didSyscall), visited) else
        Parsed(bytes, State(pos, call, didSyscall, visited))
      decreases if i == Retn then 0 else 1, |bytes| - pos
    {
      if pos >= |bytes| {
        return RanOff, visited;
      }
      i := GetInstruction(bytes[pos]);
      visited := visited + [pos];
      if i == Unknown {
        return IllegalInstruction, visited;
      }
      if i == Retn16 {
        return UnexpectedC2Retn, visited;
      }
      if pos + Size(i) > |bytes| {
        return RanOff, visited;
      }
      if i == MovImmToEax {
        call := ExtractSyscall(bytes, pos);
      } else if i == KCall {
        didSyscall := true;
      }
      pos := pos + Size(i);
    }
    if call == INVALID_SYSCALL || !didSyscall {
      return SyscallNotFound, visited;
    }
    return Ok(call), visited;
  }

  function ExtractSyscall(bytes: seq<u8>, pos: nat): nat
    requires pos + 5 <= |bytes|
  {
    Little(bytes[pos + 1..pos + 5])
  }

  function Finish(call: nat, didSyscall: bool): Result {
    if call == INVALID_SYSCALL || !didSyscall then SyscallNotFound else Ok(call)
  }

  /** What the loop does from state `st` on. */
  function Parsed(bytes: seq<u8>, st: State): (Result, seq<nat>)
    requires st.pos <= |bytes|
    decreases |bytes| - st.pos
  {
    if st.pos == |bytes| then (RanOff, st.visited)
    else
      var i, visited := GetInstruction(bytes[st.pos]), st.visited + [st.pos];
      if i == Unknown then (IllegalInstruction, visited)
      else if i == Retn16 then (UnexpectedC2Retn, visited)
      else if st.pos + Size(i) > |bytes| then (RanOff, visited)
      else if i == Retn then (Finish(st.call, st.didSyscall), visited)
      else
        Parsed(bytes, State(
          st.pos + Size(i),
          if i == MovImmToEax then ExtractSyscall(bytes, st.pos) else st.call,
          st.didSyscall || i == KCall,
          visited))
  }

  // ---------- encoding ----------

  /** The bytes an instruction starts with. */
  function Opcode(i: Instruction): (bytes: seq<u8>)
    ensures bytes != []
  {
    match i
    case Jne => [0x75]
    case MovImmToEax => [0xB8]
    case MovImmToEcx => [0xB9]
    case MovImmToEdx => [0xBA]
    case Retn16 => [0xC2]
    case Retn => [0xC3]
    case CallImm => [0xE8]
    case XorEcx => [0x33, 0xC9]
    case MovEspToEdx => [0x8B, 0xD4]
    case CallEdx => [0xFF, 0xD2]
    case KEnter => [0x0F, 0x34]
    case KCall => [0x0F, 0x05]
    case MovRcxToR10 => [0x4C, 0x8B, 0xD1]
    case LeaEspOffToEdx => [0x8D, 0x54, 0x24]
    case BitnessCheck => [0xF6, 0x04, 0x25]
    case CallLargePtr => [0x64, 0xFF, 0x15]
    case Unknown => [0x9A]
  }

  /** How many bytes of operands follow them: displacements of one or four bytes, immediates of one, two
      or four. */
  function OperandSize(i: Instruction): nat {
    match i
    case Jne | LeaEspOffToEdx => 1
    case Retn16 => 2
    case MovImmToEax | MovImmToEcx | MovImmToEdx | CallImm | CallLargePtr => 4
    case BitnessCheck => 4 + 1
    case _ => 0
  }

  /** The parser's tables are right: the low byte is the first byte of the instruction, and the size its
      length. */
  lemma TablesAreRight(i: Instruction)
    requires i != Unknown
    ensures Primary(i) == Opcode(i)[0]
    ensures Size(i) == |Opcode(i)| + OperandSize(i)
  {
  }

  /** An instruction with everything behind its first byte: further bytes of the opcode, which the parser
      does not look at, and operands. */
  datatype Code = Code(op: Instruction, rest: seq<u8>)

  /** With all its opcode bytes. */
  function Instr(i: Instruction, operands: seq<u8>): Code {
    Code(i, Opcode(i)[1..] + operands)
  }

  /** Any instruction a stub may contain before its end. */
  predicate Plain(c: Code) {
    c.op != Retn && c.op != Retn16 && c.op != Unknown && 1 + |c.rest| == |Opcode(c.op)| + OperandSize(c.op)
  }

  predicate AllPlain(codes: seq<Code>) {
    forall k :: 0 <= k < |codes| ==> Plain(codes[k])
  }

  function Encode(codes: seq<Code>): seq<u8> {
    if codes == [] then [] else [Opcode(codes[0].op)[0]] + codes[0].rest + Encode(codes[1..])
  }

  function CallAfter(c: Code, call: nat): nat
    requires Plain(c)
  {
    if c.op == MovImmToEax then Little(c.rest) else call
  }

  /** `syscall`, or `sysenter`, whose first byte is the same. */
  predicate IsSyscall(c: Code) {
    c.op == KCall || c.op == KEnter
  }

  /** The immediate of the last `mov eax`, or `call` if there is none. */
  function LastMov(codes: seq<Code>, call: nat): nat
    requires AllPlain(codes)
  {
    if codes == [] then call
    else LastMov(codes[1..], CallAfter(codes[0], call))
  }

  predicate HasSyscall(codes: seq<Code>) {
    exists k :: 0 <= k < |codes| && IsSyscall(codes[k])
  }

  /** The state after one instruction, read off the instruction itself. */
  function AfterOne(c: Code, st: State): State
    requires Plain(c)
  {
    State(st.pos + 1 + |c.rest|, CallAfter(c, st.call), st.didSyscall || IsSyscall(c), st.visited + [st.pos])
  }

  function After(codes: seq<Code>, st: State): State
    requires AllPlain(codes)
  {
    if codes == [] then st else After(codes[1..], AfterOne(codes[0], st))
  }

  /** What that comes to: the length of the encoding, the last immediate, whether there was a
      system call, and for instruction `k` the length of the encoding of those before it. */
  lemma {:induction false} AfterMeans(codes: seq<Code>, st: State)
    requires AllPlain(codes)
    ensures var end := After(codes, st);
      && end.pos == st.pos + |Encode(codes)|
      && end.call == LastMov(codes, st.call)
      && end.didSyscall == (st.didSyscall || HasSyscall(codes))
      && |end.visited| == |st.visited| + |codes| && end.visited[..|st.visited|] == st.visited
    decreases |codes|
  {
    if codes != [] {
      var end, next := After(codes, st), AfterOne(codes[0], st);
      AfterMeans(codes[1..], next);
      HasSyscallSplit(codes);
      assert end.visited[..|st.visited|] == end.visited[..|next.visited|][..|st.visited|];
    }
  }

  /** The positions it adds are the starts of the instructions. */
  lemma {:induction false} AfterVisits(codes: seq<Code>, st: State, k: nat)
    requires AllPlain(codes) && k < |codes|
    ensures |After(codes, st).visited| == |st.visited| + |codes|
    ensures After(codes, st).visited[|st.visited| + k] == st.pos + |Encode(codes[..k])|
    decreases |codes|
  {
    AfterMeans(codes, st);
    var end, next := After(codes, st), AfterOne(codes[0], st);
    AfterMeans(codes[1..], next);
    if k == 0 {
      assert end.visited[|st.visited|] == end.visited[..|next.visited|][|st.visited|];
    } else {
      AfterVisits(codes[1..], next, k - 1);
      assert codes[..k][1..] == codes[1..][..k - 1];
    }
  }

  lemma ParsesOne(bytes: seq<u8>, st: State, i: Instruction)
    requires st.pos < |bytes| && i == GetInstruction(bytes[st.pos])
    requires i != Unknown && i != Retn && i != Retn16 && st.pos + Size(i) <= |bytes|
    ensures Parsed(bytes, st) ==
      Parsed(bytes, State(
        st.pos + Size(i),
        if i == MovImmToEax then ExtractSyscall(bytes, st.pos) else st.call,
        st.didSyscall || i == KCall,
        st.visited + [st.pos]))
  {
    hide GetInstruction, ExtractSyscall;
  }

  lemma WalksOne(bytes: seq<u8>, c: Code, st: State)
    requires Plain(c) && st.pos + 1 + |c.rest| <= |bytes|
    requires bytes[st.pos] == Opcode(c.op)[0] && bytes[st.pos + 1..st.pos + 1 + |c.rest|] == c.rest
    ensures Parsed(bytes, st) == Parsed(bytes, AfterOne(c, st))
  {
    hide Opcode, OperandSize, Size, GetInstruction, Little, Parsed;
    Identified(c);
    ParsesOne(bytes, st, GetInstruction(bytes[st.pos]));
    if c.op == MovImmToEax {
      assert ExtractSyscall(bytes, st.pos) == Little(c.rest);
    }
  }

  lemma Identified(c: Code)
    requires Plain(c)
    ensures var i := GetInstruction(Opcode(c.op)[0]);
      && i != Unknown && i != Retn && i != Retn16 && Size(i) == 1 + |c.rest|
      && (i == MovImmToEax <==> c.op == MovImmToEax) && (i == KCall <==> IsSyscall(c))
    ensures c.op == MovImmToEax ==> |c.rest| == 4
  {
    FirstByteIdentifies(c.op);
  }

  /** The parser walks an encoded list instruction by instruction, whatever follows it. */
  lemma {:induction false} WalksEncoding(bytes: seq<u8>, codes: seq<Code>, st: State)
    requires AllPlain(codes)
    requires st.pos + |Encode(codes)| <= |bytes| && bytes[st.pos..st.pos + |Encode(codes)|] == Encode(codes)
    ensures After(codes, st).pos == st.pos + |Encode(codes)|
    ensures Parsed(bytes, st) == Parsed(bytes, After(codes, st))
    decreases |codes|
  {
    hide Opcode, OperandSize, Parsed, Little, CallAfter;
    if codes != [] {
      FirstCode(bytes, st.pos, codes);
      WalksOne(bytes, codes[0], st);
      WalksEncoding(bytes, codes[1..], AfterOne(codes[0], st));
    }
  }

  lemma FirstCode(bytes: seq<u8>, pos: nat, codes: seq<Code>)
    requires codes != []
    requires pos + |Encode(codes)| <= |bytes| && bytes[pos..pos + |Encode(codes)|] == Encode(codes)
    ensures var c := codes[0];
      var next := pos + 1 + |c.rest|;
      && |Encode(codes)| == 1 + |c.rest| + |Encode(codes[1..])|
      && bytes[pos] == Opcode(c.op)[0] && bytes[pos + 1..next] == c.rest
      && bytes[next..next + |Encode(codes[1..])|] == Encode(codes[1..])
  {
    hide Opcode;
    var c, e := codes[0], Encode(codes);
    var first := Opcode(c.op)[0];
    assert e == [first] + c.rest + Encode(codes[1..]);
    Slices(bytes, pos, e, first, c.rest, Encode(codes[1..]));
  }

  lemma Slices(bytes: seq<u8>, pos: nat, e: seq<u8>, first: u8, rest: seq<u8>, more: seq<u8>)
    requires e == [first] + rest + more
    requires pos + |e| <= |bytes| && bytes[pos..pos + |e|] == e
    ensures bytes[pos] == first && bytes[pos + 1..pos + 1 + |rest|] == rest
    ensures bytes[pos + 1 + |rest|..pos + |e|] == more
  {
    var here := bytes[pos..pos + |e|];
    assert here[0] == first && here[1..1 + |rest|] == rest && here[1 + |rest|..] == more;
    SliceOfSlice(bytes, pos, pos + |e|, 1, 1 + |rest|);
    SliceOfSlice(bytes, pos, pos + |e|, 1 + |rest|, |e|);
  }

  lemma HasSyscallSplit(codes: seq<Code>)
    requires codes != []
    ensures HasSyscall(codes) <==> IsSyscall(codes[0]) || HasSyscall(codes[1..])
  {
    if HasSyscall(codes) {
      var k :| 0 <= k < |codes| && IsSyscall(codes[k]);
      if k > 0 {
        assert codes[1..][k - 1] == codes[k];
      }
    }
    if HasSyscall(codes[1..]) {
      var k :| 0 <= k < |codes[1..]| && IsSyscall(codes[1..][k]);
      assert codes[k + 1] == codes[1..][k];
    }
  }

  lemma Returns(bytes: seq<u8>, st: State)
    requires st.pos < |bytes| && bytes[st.pos] == 0xC3
    ensures Parsed(bytes, st) == (Finish(st.call, st.didSyscall), st.visited + [st.pos])
  {
  }

  /** Where the parser is behind an encoded list, and what it knows there. */
  lemma BehindList(bytes: seq<u8>, codes: seq<Code>) returns (end: State)
    requires AllPlain(codes) && |Encode(codes)| < |bytes| && bytes[..|Encode(codes)|] == Encode(codes)
    ensures end.pos == |Encode(codes)| && Parsed(bytes, START) == Parsed(bytes, end)
    ensures end.call == LastMov(codes, INVALID_SYSCALL) && end.didSyscall == HasSyscall(codes)
    ensures |end.visited| == |codes| && forall k :: 0 <= k < |codes| ==> end.visited[k] == |Encode(codes[..k])|
  {
    hide Encode, Parsed, After, HasSyscall, LastMov;
    end := After(codes, START);
    assert bytes[0..0 + |Encode(codes)|] == Encode(codes);
    WalksEncoding(bytes, codes, START);
    AfterMeans(codes, START);
    forall k | 0 <= k < |codes|
      ensures end.visited[k] == |Encode(codes[..k])|
    {
      AfterVisits(codes, START, k);
    }
  }

  /** Decoding undoes encoding: for every list of instructions followed by `ret`, the parser
      visits exactly their boundaries, and answers the immediate of the last `mov eax` if there
      is one, it is not all ones, and a `syscall` occurs. */
  lemma DecodesStub(codes: seq<Code>, behind: seq<u8>)
    requires AllPlain(codes)
    ensures var bytes := Encode(codes) + [0xC3] + behind;
      var (r, visited) := Parsed(bytes, START);
      && |visited| == |codes| + 1 && (forall k :: 0 <= k <= |codes| ==> visited[k] == |Encode(codes[..k])|)
      && r == (if LastMov(codes, INVALID_SYSCALL) == INVALID_SYSCALL || !HasSyscall(codes) then SyscallNotFound
               else Ok(LastMov(codes, INVALID_SYSCALL)))
  {
    hide Encode, Parsed, HasSyscall, LastMov;
    var bytes := Encode(codes) + [0xC3] + behind;
    assert bytes[..|Encode(codes)|] == Encode(codes);
    var end := BehindList(bytes, codes);
    Returns(bytes, end);
    assert codes[..|codes|] == codes;
  }

  /** Does an instruction that the parser knows start with this byte? */
  ghost predicate Starts(first: u8) {
    exists i :: i != Unknown && Opcode(i)[0] == first
  }

  lemma StartsIff(first: u8)
    ensures Starts(first) <==> GetInstruction(first) != Unknown
  {
    var i := GetInstruction(first);
    if i != Unknown {
      assert Opcode(i)[0] == first;
    }
  }

  /** The other ends of a stub: a return with operand, or a byte no instruction starts with. */
  lemma RejectsStub(codes: seq<Code>, last: u8, behind: seq<u8>)
    requires AllPlain(codes)
    requires last == 0xC2 || !Starts(last)
    ensures var bytes := Encode(codes) + [last] + behind;
      var (r, visited) := Parsed(bytes, START);
      && |visited| == |codes| + 1 && (forall k :: 0 <= k <= |codes| ==> visited[k] == |Encode(codes[..k])|)
      && r == if last == 0xC2 then UnexpectedC2Retn else IllegalInstruction
  {
    hide Encode, HasSyscall, LastMov, Starts;
    var bytes := Encode(codes) + [last] + behind;
    assert bytes[..|Encode(codes)|] == Encode(codes);
    var _ := BehindList(bytes, codes);
    StartsIff(last);
    assert codes[..|codes|] == codes;
  }

  /** First bytes identify instructions, except that `sysenter` reads as `syscall`. */
  lemma FirstByteIdentifies(i: Instruction)
    ensures GetInstruction(Opcode(i)[0]) == if i == KEnter then KCall else i
  {
  }

  // ---------- the two kinds of stub ----------

  /** mov r10, rcx; mov eax, number; test byte ptr [7FFE0308h], 1; jne +3; syscall; ret */
  function Stub64(b0: u8, b1: u8, b2: u8, b3: u8): seq<u8> {
    [0x4C, 0x8B, 0xD1, 0xB8, b0, b1, b2, b3, 0xF6, 0x04, 0x25, 0x08, 0x03, 0xFE, 0x7F, 0x01,
     0x75, 0x03, 0x0F, 0x05, 0xC3]
  }

  /** mov eax, number; mov edx, address; call edx; ret */
  function Stub32(b0: u8, b1: u8, b2: u8, b3: u8, a0: u8, a1: u8, a2: u8, a3: u8): seq<u8> {
    [0xB8, b0, b1, b2, b3, 0xBA, a0, a1, a2, a3, 0xFF, 0xD2, 0xC3]
  }

  lemma InstrMeans(i: Instruction, operands: seq<u8>)
    requires |operands| == OperandSize(i)
    ensures [Opcode(i)[0]] + Instr(i, operands).rest == Opcode(i) + operands
    ensures i == MovImmToEax ==> Instr(i, operands).rest == operands && |operands| == 4
  {
    if i == MovImmToEax {
      assert Opcode(i)[1..] == [];
    }
  }

  lemma Walks(bytes: seq<u8>, i: Instruction, operands: seq<u8>, st: State, next: State)
    requires i != Retn && i != Retn16 && i != Unknown && |operands| == OperandSize(i)
    requires var size := |Opcode(i)| + |operands|;
      && st.pos + size <= |bytes| && bytes[st.pos..st.pos + size] == Opcode(i) + operands
      && next.pos == st.pos + size && next.visited == st.visited + [st.pos]
      && next.didSyscall == (st.didSyscall || i == KCall || i == KEnter)
      && next.call == if i == MovImmToEax then Little(operands) else st.call
    ensures Parsed(bytes, st) == Parsed(bytes, next)
  {
    hide Opcode, Parsed, OperandSize, Little;
    var c := Instr(i, operands);
    InstrMeans(i, operands);
    var size := |Opcode(i)| + |operands|;
    assert bytes[st.pos] == bytes[st.pos..st.pos + size][0];
    assert bytes[st.pos + 1..st.pos + size] == bytes[st.pos..st.pos + size][1..] == c.rest;
    assert AfterOne(c, st) == next;
    WalksOne(bytes, c, st);
  }

  lemma LittleMeans(b0: u8, b1: u8, b2: u8, b3: u8)
    ensures Little([b0, b1, b2, b3]) == b0 as int + 256 * b1 as int + 65536 * b2 as int + 16777216 * b3 as int
    ensures Little([b0, b1, b2, b3]) == 0xFFFF_FFFF <==> b0 == b1 == b2 == b3 == 0xFF
  {
  }

  /** The stub of a 64-bit system is understood: its number is read as a little-endian one, and only the
      number that stands for none is refused. */
  lemma ReadsStub64(b0: u8, b1: u8, b2: u8, b3: u8, behind: seq<u8>)
    ensures Parsed(Stub64(b0, b1, b2, b3) + behind, START) ==
      (if b0 == b1 == b2 == b3 == 0xFF then SyscallNotFound
       else Ok(b0 as int + 256 * b1 as int + 65536 * b2 as int + 16777216 * b3 as int),
       [0, 3, 8, 16, 18, 20])
  {
    hide Parsed, Little;
    var bytes := Stub64(b0, b1, b2, b3) + behind;
    var number := Little([b0, b1, b2, b3]);
    Walks(bytes, MovRcxToR10, [], START, State(3, INVALID_SYSCALL, false, [0]));
    Walks(bytes, MovImmToEax, [b0, b1, b2, b3], State(3, INVALID_SYSCALL, false, [0]), State(8, number, false, [0, 3]));
    Walks(bytes, BitnessCheck, [0x08, 0x03, 0xFE, 0x7F, 0x01],
      State(8, number, false, [0, 3]), State(16, number, false, [0, 3, 8]));
    Walks(bytes, Jne, [0x03], State(16, number, false, [0, 3, 8]), State(18, number, false, [0, 3, 8, 16]));
    Walks(bytes, KCall, [], State(18, number, false, [0, 3, 8, 16]), State(20, number, true, [0, 3, 8, 16, 18]));
    Returns(bytes, State(20, number, true, [0, 3, 8, 16, 18]));
    assert [0, 3, 8, 16, 18] + [20] == [0, 3, 8, 16, 18, 20];
    LittleMeans(b0, b1, b2, b3);
  }

  /** The stub of a 32-bit program on such a system is not: it makes its call through edx, and the parser asks
      for a `syscall`. */
  lemma RefusesStub32(b0: u8, b1: u8, b2: u8, b3: u8, a0: u8, a1: u8, a2: u8, a3: u8, behind: seq<u8>)
    ensures Parsed(Stub32(b0, b1, b2, b3, a0, a1, a2, a3) + behind, START) == (SyscallNotFound, [0, 5, 10, 12])
  {
    hide Parsed, Little;
    var bytes := Stub32(b0, b1, b2, b3, a0, a1, a2, a3) + behind;
    var number := Little([b0, b1, b2, b3]);
    Walks(bytes, MovImmToEax, [b0, b1, b2, b3], START, State(5, number, false, [0]));
    Walks(bytes, MovImmToEdx, [a0, a1, a2, a3], State(5, number, false, [0]), State(10, number, false, [0, 5]));
    Walks(bytes, CallEdx, [], State(10, number, false, [0, 5]), State(12, number, false, [0, 5, 10]));
    Returns(bytes, State(12, number, false, [0, 5, 10]));
    assert [0, 5, 10] + [12] == [0, 5, 10, 12];
  }
}
