// Trampoline hooks: HookUtils/HookUtils.cpp and HookUtils.hpp.
//
// Memory is a partial map from addresses to bytes: its domain is what is mapped, so "nothing stays allocated"
// and "the code is as it was" are one equation between two maps. The decoder is a parameter: a function that
// says which byte strings are one whole instruction. What the operating system decides (where it allocates,
// whether it lets the code be written, whether it releases) is the parameter `os`.

module HookUtils {
  import opened Wrappers

  type Byte = x: int | 0 <= x < 256
  type Memory = map<int, Byte>

  const JUMP_LENGTH := 5
  const MAX_INSTRUCTION_LENGTH := 15
  const MAX_SAVED_LENGTH := JUMP_LENGTH - 1 + MAX_INSTRUCTION_LENGTH
  const CALL: Byte := 0xE8
  const JMP: Byte := 0xE9
  const NOP: Byte := 0x90

  datatype Platform = X86 | X64

  function Modulus(p: Platform): int {
    if p.X86? then 0x1_0000_0000 else 0x1_0000_0000_0000_0000
  }

  /** Address arithmetic of the platform: modulo the size of a pointer. */
  function Wrap(p: Platform, x: int): (r: int)
    ensures 0 <= r < Modulus(p)
  {
    if p.X86? then x % 0x1_0000_0000 else x % 0x1_0000_0000_0000_0000
  }

  predicate IsInt32(x: int) { -0x8000_0000 <= x < 0x8000_0000 }

  // ---------- Relative offsets ----------

  /** How far it is to `destination` from `next`, the end of the rel32; none when 32 bits cannot say. */
  function Rel32(p: Platform, next: int, destination: int): (r: Option<int>)
    requires 0 <= destination < Modulus(p)
    ensures r.Some? ==> IsInt32(r.value)
  {
    var difference := Wrap(p, destination - next);
    if p.X86? then
      Some(if difference >= 0x8000_0000 then difference - 0x1_0000_0000 else difference)
    else
      var signed :=
        if difference >= 0x8000_0000_0000_0000 then difference - 0x1_0000_0000_0000_0000 else difference;
      if IsInt32(signed) then Some(signed) else None
  }

  lemma Rel32Reaches(p: Platform, next: int, destination: int)
    requires 0 <= destination < Modulus(p)
    ensures p.X86? ==> Rel32(p, next, destination).Some?
    ensures Rel32(p, next, destination).Some? ==> Wrap(p, next + Rel32(p, next, destination).value) == destination
  {
    hide Wrap;
    var r := Rel32(p, next, destination);
    if r.Some? {
      var turns := WrapIsRemainder(p, destination - next);
      WrapIs(p, next + r.value, destination, if r.value < 0 then -turns - 1 else -turns);
    }
  }

  lemma WrapIsRemainder(p: Platform, x: int) returns (turns: int)
    ensures x == turns * Modulus(p) + Wrap(p, x)
  {
    turns := if p.X86? then x / 0x1_0000_0000 else x / 0x1_0000_0000_0000_0000;
  }

  lemma WrapIs(p: Platform, x: int, r: int, turns: int)
    requires x == turns * Modulus(p) + r && 0 <= r < Modulus(p)
    ensures Wrap(p, x) == r
  {
    var others := WrapIsRemainder(p, x);
    assert (others - turns) * Modulus(p) == r - Wrap(p, x);
  }

  /** On x64 the offset is refused only when none would do. */
  lemma Rel32Complete(p: Platform, next: int, destination: int, offset: int)
    requires 0 <= destination < Modulus(p) && IsInt32(offset)
    requires Wrap(p, next + offset) == destination
    ensures Rel32(p, next, destination) == Some(offset)
  {
    hide Wrap;
    var turns := WrapIsRemainder(p, next + offset);
    WrapIs(p, destination - next, if offset < 0 then offset + Modulus(p) else offset,
           if offset < 0 then -turns - 1 else -turns);
  }

  /** The four bytes of a 32-bit integer as x86 stores it. */
  function Dword(x: int): (r: seq<Byte>)
    requires IsInt32(x)
    ensures |r| == 4
  {
    var u := if x < 0 then x + 0x1_0000_0000 else x;
    [u % 256, u / 256 % 256, u / 65536 % 256, u / 16777216]
  }

  function FromDword(b: seq<Byte>): (r: int)
    requires |b| == 4
    ensures IsInt32(r)
  {
    var u: int := b[0] as int + 256 * (b[1] as int) + 65536 * (b[2] as int) + 16777216 * (b[3] as int);
    if u >= 0x8000_0000 then u - 0x1_0000_0000 else u
  }

  lemma DwordRoundTrip(x: int)
    requires IsInt32(x)
    ensures FromDword(Dword(x)) == x
  {
    var u := if x < 0 then x + 0x1_0000_0000 else x;
    assert u == u % 256 + 256 * (u / 256);
    assert u / 256 == u / 256 % 256 + 256 * (u / 65536);
    assert u / 65536 == u / 65536 % 256 + 256 * (u / 16777216);
  }

  // ---------- Memory ----------

  predicate Within(i: int, address: int, length: nat) { address <= i < address + length }

  ghost predicate Mapped(mem: Memory, address: int, length: nat) {
    forall i | address <= i < address + length :: i in mem
  }

  ghost predicate Unmapped(mem: Memory, address: int, length: nat) {
    forall i | address <= i < address + length :: i !in mem
  }

  function Read(mem: Memory, address: int, length: nat): (r: seq<Byte>)
    requires Mapped(mem, address, length)
    ensures |r| == length
  {
    seq(length, i requires 0 <= i < length => mem[address + i])
  }

  /** Also maps what was not mapped. */
  function Write(mem: Memory, address: int, bytes: seq<Byte>): Memory {
    mem + map i | address <= i < address + |bytes| && Within(i, address, |bytes|) :: bytes[i - address]
  }

  function Unmap(mem: Memory, address: int, length: nat): Memory {
    map i | i in mem && !(address <= i < address + length) :: mem[i]
  }

  /** Writing inside what was just written. */
  lemma WriteInside(mem: Memory, address: int, bytes: seq<Byte>, k: nat, part: seq<Byte>)
    requires k + |part| <= |bytes|
    ensures Write(Write(mem, address, bytes), address + k, part)
         == Write(mem, address, bytes[..k] + part + bytes[k + |part|..])
  {
    hide Write;
    var both := bytes[..k] + part + bytes[k + |part|..];
    assert |both| == |bytes|;
    var left, right := Write(Write(mem, address, bytes), address + k, part), Write(mem, address, both);
    forall i
      ensures i in left <==> i in right
      ensures i in left ==> left[i] == right[i]
    {
      WriteAt(Write(mem, address, bytes), address + k, part, i);
      WriteAt(mem, address, bytes, i);
      WriteAt(mem, address, both, i);
    }
  }

  lemma UnmapAt(mem: Memory, address: int, length: nat, i: int)
    ensures i in Unmap(mem, address, length) <==> i in mem && !Within(i, address, length)
    ensures i in Unmap(mem, address, length) ==> Unmap(mem, address, length)[i] == mem[i]
  {
  }

  lemma WriteAt(mem: Memory, address: int, bytes: seq<Byte>, i: int)
    ensures i in Write(mem, address, bytes) <==> i in mem || Within(i, address, |bytes|)
    ensures i in Write(mem, address, bytes) ==>
      Write(mem, address, bytes)[i] == if Within(i, address, |bytes|) then bytes[i - address] else mem[i]
  {
  }

  lemma UnmapWrite(mem: Memory, address: int, bytes: seq<Byte>)
    requires Unmapped(mem, address, |bytes|)
    ensures Unmap(Write(mem, address, bytes), address, |bytes|) == mem
  {
  }

  lemma MappedApart(mem: Memory, address: int, length: nat, free: int, freeLength: nat)
    requires Mapped(mem, address, length) && Unmapped(mem, free, freeLength)
    requires 0 < length && 0 < freeLength
    ensures address + length <= free || free + freeLength <= address
  {
    var overlap := if address < free then free else address;
    assert address <= overlap < address + length ==> overlap in mem;
    assert free <= overlap < free + freeLength ==> overlap !in mem;
  }

  lemma ReadElsewhere(mem: Memory, address: int, length: nat, address': int, bytes: seq<Byte>)
    requires Mapped(mem, address, length)
    requires address + length <= address' || address' + |bytes| <= address
    ensures Mapped(Write(mem, address', bytes), address, length)
    ensures Read(Write(mem, address', bytes), address, length) == Read(mem, address, length)
  {
  }

  function Fill(length: nat, b: Byte): (r: seq<Byte>)
    ensures |r| == length && forall i | 0 <= i < length :: r[i] == b
  {
    seq(length, _ => b)
  }

  // ---------- Decoding ----------

  /** What the analysis reads of a decoded instruction (Zydis attributes). Its length is that of its encoding. */
  datatype Instruction = Instruction(relative: bool, defaultMap: bool, opcode: Byte,
                                     imm0Relative: bool, imm0Size: nat, ret: bool)

  datatype Decoded = Decoded(length: nat, instruction: Instruction)

  /** Says which byte strings are the encoding of one instruction. */
  type Decoder = seq<Byte> -> Option<Instruction>

  /** The instruction at `address`: the shortest encoding found there, of at least n and at most 15 bytes. */
  function DecodeFrom(d: Decoder, mem: Memory, address: int, n: nat): (r: Option<Decoded>)
    requires 1 <= n <= MAX_INSTRUCTION_LENGTH + 1
    requires Mapped(mem, address, n - 1)
    ensures r.Some? ==>
      && n <= r.value.length <= MAX_INSTRUCTION_LENGTH
      && Mapped(mem, address, r.value.length)
      && d(Read(mem, address, r.value.length)) == Some(r.value.instruction)
    decreases MAX_INSTRUCTION_LENGTH + 1 - n
  {
    if n > MAX_INSTRUCTION_LENGTH || address + n - 1 !in mem then None
    else
      match d(Read(mem, address, n))
      case Some(instruction) => Some(Decoded(n, instruction))
      case None => DecodeFrom(d, mem, address, n + 1)
  }

  function Decode(d: Decoder, mem: Memory, address: int): (r: Option<Decoded>)
    ensures r.Some? ==>
      && 1 <= r.value.length <= MAX_INSTRUCTION_LENGTH
      && Mapped(mem, address, r.value.length)
      && d(Read(mem, address, r.value.length)) == Some(r.value.instruction)
  {
    DecodeFrom(d, mem, address, 1)
  }

  /** The two encodings that can be relocated: five bytes, four of them a signed distance. */
  predicate IsRel32CallOrJmp(decoded: Decoded) {
    && decoded.length == JUMP_LENGTH
    && decoded.instruction.defaultMap
    && (decoded.instruction.opcode == CALL || decoded.instruction.opcode == JMP)
    && decoded.instruction.imm0Relative
    && decoded.instruction.imm0Size == 32
  }

  /** An instruction is decoded from its own bytes only: a copy of them elsewhere is the same instruction. */
  lemma {:induction false} DecodeFromLocal(d: Decoder, mem: Memory, address: int, mem': Memory, address': int, n: nat)
    requires 1 <= n <= MAX_INSTRUCTION_LENGTH + 1
    requires Mapped(mem, address, n - 1) && Mapped(mem', address', n - 1)
    requires DecodeFrom(d, mem, address, n).Some?
    requires var length := DecodeFrom(d, mem, address, n).value.length;
      && Mapped(mem', address', length)
      && Read(mem', address', length) == Read(mem, address, length)
    ensures DecodeFrom(d, mem', address', n) == DecodeFrom(d, mem, address, n)
    decreases MAX_INSTRUCTION_LENGTH + 1 - n
  {
    var length := DecodeFrom(d, mem, address, n).value.length;
    assert address' + n - 1 in mem';
    assert Read(mem', address', n) == Read(mem', address', length)[..n];
    assert Read(mem, address, n) == Read(mem, address, length)[..n];
    if d(Read(mem, address, n)).None? {
      DecodeFromLocal(d, mem, address, mem', address', n + 1);
    }
  }

  lemma DecodeLocal(d: Decoder, mem: Memory, address: int, mem': Memory, address': int)
    requires Decode(d, mem, address).Some?
    requires var length := Decode(d, mem, address).value.length;
      && Mapped(mem', address', length)
      && Read(mem', address', length) == Read(mem, address, length)
    ensures Decode(d, mem', address') == Decode(d, mem, address)
  {
    DecodeFromLocal(d, mem, address, mem', address', 1);
  }

  // ---------- Analyze ----------

  datatype Status =
    | Ok | NullTarget | AlreadyAttached | DecodeError | FunctionTooShort | RelativeInstruction | OutOfRange
    | AllocationFailed | ProtectionFailed | ReleaseFailed

  datatype Analysis = Refused(status: Status) | Prefix(length: nat, relocation: Option<nat>)

  /** The analysis of the code at `target`, when `length` bytes of it have already been accepted. */
  function AnalysisFrom(d: Decoder, mem: Memory, target: int, length: nat): (r: Analysis)
    requires length <= MAX_SAVED_LENGTH
    ensures r.Prefix? && length < JUMP_LENGTH ==> JUMP_LENGTH <= r.length <= MAX_SAVED_LENGTH
    ensures r.Prefix? && r.relocation.Some? ==>
      length <= r.relocation.value && r.relocation.value + JUMP_LENGTH == r.length
    ensures r.Prefix? ==> length <= r.length && Mapped(mem, target + length, r.length - length)
    ensures r.Refused? ==> r.status in {DecodeError, FunctionTooShort, RelativeInstruction}
    decreases MAX_SAVED_LENGTH - length
  {
    if length >= JUMP_LENGTH then Prefix(length, None)
    else
      match Decode(d, mem, target + length)
      case None => Refused(DecodeError)
      case Some(decoded) =>
        var next := length + decoded.length;
        if decoded.instruction.relative then
          if IsRel32CallOrJmp(decoded) then Prefix(next, Some(length)) else Refused(RelativeInstruction)
        else if next < JUMP_LENGTH && decoded.instruction.ret then Refused(FunctionTooShort)
        else AnalysisFrom(d, mem, target, next)
  }

  /**
   * What makes the `length` bytes at `target` movable, from offset k on: instructions that end exactly at
   * `length`, none of them relative but a rel32 call or jmp at the relocation offset, which is the last one.
   */
  ghost predicate Movable(d: Decoder, mem: Memory, target: int, k: nat, length: nat, relocation: Option<nat>)
    requires k <= length
    decreases length - k
  {
    k < length ==>
      match Decode(d, mem, target + k)
      case None => false
      case Some(decoded) =>
        && k + decoded.length <= length
        && (if decoded.instruction.relative
            then relocation == Some(k) && IsRel32CallOrJmp(decoded) && k + JUMP_LENGTH == length
            else relocation.Some? ==> k + decoded.length <= relocation.value)
        && Movable(d, mem, target, k + decoded.length, length, relocation)
  }

  lemma {:induction false} AnalysisIsMovable(d: Decoder, mem: Memory, target: int, k: nat)
    requires k <= MAX_SAVED_LENGTH
    requires AnalysisFrom(d, mem, target, k).Prefix?
    ensures var a := AnalysisFrom(d, mem, target, k); Movable(d, mem, target, k, a.length, a.relocation)
    decreases MAX_SAVED_LENGTH - k
  {
    hide Decode, Read;
    if k < JUMP_LENGTH {
      var decoded := Decode(d, mem, target + k).value;
      if !decoded.instruction.relative {
        AnalysisIsMovable(d, mem, target, k + decoded.length);
      }
    }
  }

  /** Whole instructions, none of them relative, lead from offset k to offset n. */
  ghost predicate Leads(d: Decoder, mem: Memory, target: int, k: nat, n: nat)
    decreases n - k
  {
    || k == n
    || (&& k < n
        && match Decode(d, mem, target + k)
           case None => false
           case Some(decoded) =>
             && !decoded.instruction.relative && k + decoded.length <= n
             && Leads(d, mem, target, k + decoded.length, n))
  }

  /** Offset n, reached by instructions that are not relative, and before there is room for a jump. */
  ghost predicate Reaches(d: Decoder, mem: Memory, target: int, k: nat, n: nat) {
    k <= n < JUMP_LENGTH && Leads(d, mem, target, k, n)
  }

  /** The instruction at offset n returns, and ends before there is room for a jump. */
  ghost predicate ReturnsAt(d: Decoder, mem: Memory, target: int, n: nat) {
    match Decode(d, mem, target + n)
    case None => false
    case Some(decoded) =>
      !decoded.instruction.relative && decoded.instruction.ret && n + decoded.length < JUMP_LENGTH
  }

  ghost predicate ReturnsTooEarly(d: Decoder, mem: Memory, target: int, k: nat) {
    exists n: nat :: Reaches(d, mem, target, k, n) && ReturnsAt(d, mem, target, n)
  }

  /** The instruction at offset n is relative, and not a call or jmp of five bytes with an offset of 32 bits. */
  ghost predicate CannotMoveAt(d: Decoder, mem: Memory, target: int, n: nat) {
    match Decode(d, mem, target + n)
    case None => false
    case Some(Decoded(length, instruction)) =>
      && instruction.relative
      && !(length == 5 && instruction.defaultMap && instruction.opcode in {0xE8, 0xE9}
           && instruction.imm0Relative && instruction.imm0Size == 32)
  }

  /** Exactly which code is refused, and as what; all other code is accepted. */
  lemma {:induction false} RefusalIs(d: Decoder, mem: Memory, target: int, k: nat)
    requires k <= MAX_SAVED_LENGTH
    ensures var a := AnalysisFrom(d, mem, target, k);
      && (a == Refused(FunctionTooShort) <==> ReturnsTooEarly(d, mem, target, k))
      && (a == Refused(RelativeInstruction) <==>
            && !ReturnsTooEarly(d, mem, target, k)
            && exists n: nat :: Reaches(d, mem, target, k, n) && CannotMoveAt(d, mem, target, n))
      && (a == Refused(DecodeError) <==>
            && !ReturnsTooEarly(d, mem, target, k)
            && exists n: nat :: Reaches(d, mem, target, k, n) && Decode(d, mem, target + n) == None)
    decreases MAX_SAVED_LENGTH - k
  {
    hide Decode, AnalysisFrom, Leads, Reaches, ReturnsAt, CannotMoveAt;
    AnalysisStep(d, mem, target, k);
    if k < JUMP_LENGTH {
      ReachesStep(d, mem, target, k);
      assert Reaches(d, mem, target, k, k);
      var decoded := Decode(d, mem, target + k);
      if decoded.Some? && !decoded.value.instruction.relative {
        var next := k + decoded.value.length;
        NoRefusalHere(d, mem, target, k);
        RefusalIs(d, mem, target, next);
        assert forall n: nat | Reaches(d, mem, target, next, n) :: Reaches(d, mem, target, k, n);
      } else {
        RefusedHere(d, mem, target, k);
      }
    } else {
      NothingReached(d, mem, target, k);
    }
  }

  lemma AnalysisStep(d: Decoder, mem: Memory, target: int, k: nat)
    requires k <= MAX_SAVED_LENGTH
    ensures AnalysisFrom(d, mem, target, k) ==
      if k >= JUMP_LENGTH then Prefix(k, None)
      else
        match Decode(d, mem, target + k)
        case None => Refused(DecodeError)
        case Some(decoded) =>
          if decoded.instruction.relative then
            if CannotMoveAt(d, mem, target, k) then Refused(RelativeInstruction)
            else Prefix(k + decoded.length, Some(k))
          else if ReturnsAt(d, mem, target, k) then Refused(FunctionTooShort)
          else AnalysisFrom(d, mem, target, k + decoded.length)
  {
    hide Decode;
  }

  lemma NothingReached(d: Decoder, mem: Memory, target: int, k: nat)
    requires k >= JUMP_LENGTH
    ensures forall n: nat :: !Reaches(d, mem, target, k, n)
  {
  }

  /** Offset k reaches itself, and what the next instruction reaches. */
  lemma ReachesStep(d: Decoder, mem: Memory, target: int, k: nat)
    requires k < JUMP_LENGTH
    ensures var decoded := Decode(d, mem, target + k);
      forall n: nat ::
        Reaches(d, mem, target, k, n) <==>
        n == k || (decoded.Some? && !decoded.value.instruction.relative
                   && Reaches(d, mem, target, k + decoded.value.length, n))
  {
    hide Decode;
  }

  lemma NoRefusalHere(d: Decoder, mem: Memory, target: int, k: nat)
    requires Decode(d, mem, target + k).Some? && !Decode(d, mem, target + k).value.instruction.relative
    ensures !CannotMoveAt(d, mem, target, k)
  {
    hide Decode;
  }

  lemma RefusedHere(d: Decoder, mem: Memory, target: int, k: nat)
    requires Decode(d, mem, target + k).Some? ==> Decode(d, mem, target + k).value.instruction.relative
    ensures !ReturnsAt(d, mem, target, k)
    ensures Decode(d, mem, target + k) == None ==> !CannotMoveAt(d, mem, target, k)
  {
    hide Decode;
  }

  /** Code that can be cut in movable instructions is accepted if and only if it does not return too early. */
  lemma {:induction false} MovableIsAccepted(d: Decoder, mem: Memory, target: int, k: nat, length: nat,
                                             relocation: Option<nat>)
    requires k <= length <= MAX_SAVED_LENGTH && JUMP_LENGTH <= length
    requires Movable(d, mem, target, k, length, relocation)
    ensures var a := AnalysisFrom(d, mem, target, k);
      if ReturnsTooEarly(d, mem, target, k) then a == Refused(FunctionTooShort) else a.Prefix? && a.length <= length
    decreases length - k
  {
    hide Decode, AnalysisFrom, Leads, Reaches, ReturnsAt, CannotMoveAt, ReturnsTooEarly;
    AnalysisStep(d, mem, target, k);
    RefusalIs(d, mem, target, k);
    if k < JUMP_LENGTH {
      MovableHere(d, mem, target, k, length, relocation);
      var decoded := Decode(d, mem, target + k).value;
      if !decoded.instruction.relative && !ReturnsAt(d, mem, target, k) {
        RefusalIs(d, mem, target, k + decoded.length);
        MovableIsAccepted(d, mem, target, k + decoded.length, length, relocation);
      }
    }
  }

  lemma MovableHere(d: Decoder, mem: Memory, target: int, k: nat, length: nat, relocation: Option<nat>)
    requires k < length && Movable(d, mem, target, k, length, relocation)
    ensures Decode(d, mem, target + k).Some? && !CannotMoveAt(d, mem, target, k)
    ensures k + Decode(d, mem, target + k).value.length <= length
    ensures Movable(d, mem, target, k + Decode(d, mem, target + k).value.length, length, relocation)
  {
    hide Decode;
  }

  /** One instruction per turn, until there is room for a jump or an instruction that cannot move. */
  method Analyze(d: Decoder, memory: AddressSpace, target: int)
    returns (status: Status, length: nat, hasRelocation: bool, relocationOffset: nat)
    ensures AnalysisFrom(d, memory.bytes, target, 0) ==
      if status == Ok then Prefix(length, if hasRelocation then Some(relocationOffset) else None) else Refused(status)
  {
    length, hasRelocation, relocationOffset := 0, false, 0;
    while length < JUMP_LENGTH
      invariant length <= MAX_SAVED_LENGTH
      invariant AnalysisFrom(d, memory.bytes, target, 0) ==
        if hasRelocation then Prefix(length, Some(relocationOffset))
        else AnalysisFrom(d, memory.bytes, target, length)
      invariant hasRelocation ==> JUMP_LENGTH <= length
      decreases MAX_SAVED_LENGTH - length
    {
      var decoded := Decode(d, memory.bytes, target + length);
      if decoded.None? {
        return DecodeError, length, hasRelocation, relocationOffset;
      }
      var nextLength := length + decoded.value.length;
      if decoded.value.instruction.relative {
        if !IsRel32CallOrJmp(decoded.value) {
          return RelativeInstruction, length, hasRelocation, relocationOffset;
        }
        hasRelocation := true;
        relocationOffset := length;
      } else if nextLength < JUMP_LENGTH && decoded.value.instruction.ret {
        return FunctionTooShort, length, hasRelocation, relocationOffset;
      }
      length := nextLength;
    }
    status := Ok;
  }

  // ---------- Attach and detach, on values ----------

  /** The choices of the operating system during one call. */
  datatype Os = Os(allocateAt: Option<int>, writable: bool, releases: bool)

  /** A new allocation is not null, fits in the address space and takes nothing that is mapped. */
  ghost predicate FreshAllocation(p: Platform, mem: Memory, os: Os) {
    os.allocateAt.Some? ==>
      && 0 < os.allocateAt.value
      && os.allocateAt.value + MAX_SAVED_LENGTH + JUMP_LENGTH <= Modulus(p)
      && Unmapped(mem, os.allocateAt.value, MAX_SAVED_LENGTH + JUMP_LENGTH)
  }

  /** A hook: `trampoline` is 0 when it is not attached, `redirected` is what *originalRedirectedFunctionPtr holds. */
  datatype Hook = Hook(target: int, saved: seq<Byte>, trampoline: int, redirected: int)

  datatype Attempt = Attempt(status: Status, mem: Memory, hook: Hook)

  function Jump(offset: int): (r: seq<Byte>)
    requires IsInt32(offset)
    ensures |r| == JUMP_LENGTH
  {
    [JMP] + Dword(offset)
  }

  /** The copied prefix, its rel32 still aimed where it was. */
  function Relocated(p: Platform, copy: seq<Byte>, target: int, trampoline: int, relocation: Option<nat>)
    : (r: Option<seq<Byte>>)
    requires relocation.Some? ==> relocation.value + JUMP_LENGTH <= |copy|
    ensures r.Some? ==> |r.value| == |copy|
  {
    match relocation
    case None => Some(copy)
    case Some(o) =>
      var destination := Wrap(p, target + o + JUMP_LENGTH + FromDword(copy[o + 1..o + JUMP_LENGTH]));
      match Rel32(p, trampoline + o + JUMP_LENGTH, destination)
      case None => None
      case Some(offset) => Some(copy[..o + 1] + Dword(offset) + copy[o + JUMP_LENGTH..])
  }

  /** What a trampoline holds: the moved prefix, and a jump to the first instruction left in place. */
  function TrampolineBytes(p: Platform, copy: seq<Byte>, target: int, trampoline: int, relocation: Option<nat>)
    : (r: Option<seq<Byte>>)
    requires relocation.Some? ==> relocation.value + JUMP_LENGTH <= |copy|
    ensures r.Some? ==> |r.value| == |copy| + JUMP_LENGTH
  {
    match Rel32(p, trampoline + |copy| + JUMP_LENGTH, Wrap(p, target + |copy|))
    case None => None
    case Some(jumpBack) =>
      match Relocated(p, copy, target, trampoline, relocation)
      case None => None
      case Some(moved) => Some(moved + Jump(jumpBack))
  }

  /** What is written over the prefix: the jump to the proxy, and a nop in place of each byte left. */
  function Redirection(jumpToProxy: int, length: nat): (r: seq<Byte>)
    requires IsInt32(jumpToProxy) && JUMP_LENGTH <= length
    ensures |r| == length
  {
    Jump(jumpToProxy) + Fill(length - JUMP_LENGTH, NOP)
  }

  function AttachOutcome(p: Platform, d: Decoder, mem: Memory, hook: Hook, proxy: int, os: Os): (r: Attempt)
    requires 0 <= proxy < Modulus(p)
  {
    if hook.target == 0 || proxy == 0 then Attempt(NullTarget, mem, hook)
    else if hook.trampoline != 0 then Attempt(AlreadyAttached, mem, hook)
    else
      match AnalysisFrom(d, mem, hook.target, 0)
      case Refused(status) => Attempt(status, mem, hook)
      case Prefix(length, relocation) =>
        var jumpToProxy := Rel32(p, hook.target + JUMP_LENGTH, proxy);
        if jumpToProxy.None? then Attempt(OutOfRange, mem, hook)
        else if os.allocateAt.None? then Attempt(AllocationFailed, mem, hook)
        else
          var trampoline := os.allocateAt.value;
          var original := Read(mem, hook.target, length);
          var bytes := TrampolineBytes(p, original, hook.target, trampoline, relocation);
          if bytes.None? then
            Attempt(OutOfRange, AfterRelease(mem, trampoline, original + Fill(JUMP_LENGTH, 0), os), hook)
          else if !os.writable then
            Attempt(ProtectionFailed, AfterRelease(mem, trampoline, bytes.value, os), hook)
          else
            Attempt(Ok,
                    Write(Write(mem, trampoline, bytes.value), hook.target, Redirection(jumpToProxy.value, length)),
                    Hook(hook.target, original, trampoline, trampoline))
  }

  /** The first check that fails decides the status. */
  lemma StatusIs(p: Platform, d: Decoder, mem: Memory, hook: Hook, proxy: int, os: Os)
    requires 0 <= proxy < Modulus(p)
    ensures var status := AttachOutcome(p, d, mem, hook, proxy, os).status;
            var a := AnalysisFrom(d, mem, hook.target, 0);
            var called := hook.target != 0 && proxy != 0;
            var analysed := called && hook.trampoline == 0;
            var jumps := analysed && a.Prefix? && Rel32(p, hook.target + JUMP_LENGTH, proxy).Some?;
            var moves := jumps && os.allocateAt.Some? &&
              TrampolineBytes(p, Read(mem, hook.target, a.length), hook.target, os.allocateAt.value, a.relocation).Some?;
      && (status == NullTarget <==> !called)
      && (status == AlreadyAttached <==> called && hook.trampoline != 0)
      && (status in {DecodeError, FunctionTooShort, RelativeInstruction} <==> analysed && a == Refused(status))
      && (status == AllocationFailed <==> jumps && os.allocateAt.None?)
      && (status == OutOfRange <==>
            analysed && a.Prefix? && (if jumps then os.allocateAt.Some? && !moves else true))
      && (status == ProtectionFailed <==> moves && !os.writable)
      && (status == Ok <==> moves && os.writable)
  {
    hide AnalysisFrom, TrampolineBytes, Rel32, Write, Read, Redirection;
  }

  /** What an attach that succeeds has found and done. */
  lemma SuccessIs(p: Platform, d: Decoder, mem: Memory, hook: Hook, proxy: int, os: Os)
    returns (length: nat, relocation: Option<nat>, bytes: seq<Byte>, jump: int)
    requires 0 <= proxy < Modulus(p) && AttachOutcome(p, d, mem, hook, proxy, os).status == Ok
    ensures hook.target != 0 && proxy != 0 && hook.trampoline == 0 && os.allocateAt.Some? && os.writable
    ensures AnalysisFrom(d, mem, hook.target, 0) == Prefix(length, relocation)
    ensures Mapped(mem, hook.target, length) && JUMP_LENGTH <= length <= MAX_SAVED_LENGTH
    ensures relocation.Some? ==> relocation.value + JUMP_LENGTH <= length
    ensures TrampolineBytes(p, Read(mem, hook.target, length), hook.target, os.allocateAt.value, relocation) == Some(bytes)
    ensures |bytes| == length + JUMP_LENGTH
    ensures IsInt32(jump) && Rel32(p, hook.target + JUMP_LENGTH, proxy) == Some(jump)
    ensures AttachOutcome(p, d, mem, hook, proxy, os) ==
      Attempt(Ok, Write(Write(mem, os.allocateAt.value, bytes), hook.target, Redirection(jump, length)),
              Hook(hook.target, Read(mem, hook.target, length), os.allocateAt.value, os.allocateAt.value))
  {
    hide AnalysisFrom, Mapped, TrampolineBytes, Read, Rel32, Write, Redirection;
    var a := AnalysisFrom(d, mem, hook.target, 0);
    length, relocation := a.length, a.relocation;
    bytes := TrampolineBytes(p, Read(mem, hook.target, length), hook.target, os.allocateAt.value, relocation).value;
    jump := Rel32(p, hook.target + JUMP_LENGTH, proxy).value;
  }

  /** The failure paths ignore the result of the release: when it fails, the allocation stays. */
  function AfterRelease(mem: Memory, trampoline: int, bytes: seq<Byte>, os: Os): Memory {
    if os.releases then mem else Write(mem, trampoline, bytes)
  }

  function DetachOutcome(mem: Memory, hook: Hook, os: Os): (r: Attempt) {
    if hook.trampoline == 0 then Attempt(Ok, mem, hook.(redirected := 0))
    else if !os.writable then Attempt(ProtectionFailed, mem, hook)
    else
      var restored := Write(mem, hook.target, hook.saved);
      if os.releases then
        Attempt(Ok, Unmap(restored, hook.trampoline, |hook.saved| + JUMP_LENGTH), Hook(hook.target, [], 0, 0))
      else
        Attempt(ReleaseFailed, restored, Hook(hook.target, [], 0, hook.redirected))
  }

  // ---------- Attach and detach, in place ----------

  class AddressSpace {
    var bytes: Memory
    constructor (mem: Memory)
      ensures bytes == mem
    {
      bytes := mem;
    }
  }

  class HookEntry {
    const originalFunctionAddr: int
    const savedOpcodes: array<Byte>
    var savedOpcodeLength: nat
    var trampoline: int
    var redirectedFunction: int

    constructor (address: int)
      ensures Valid() && Value() == Hook(address, [], 0, 0) && fresh(savedOpcodes)
    {
      originalFunctionAddr := address;
      savedOpcodes := new Byte[MAX_SAVED_LENGTH](_ => 0);
      savedOpcodeLength, trampoline, redirectedFunction := 0, 0, 0;
    }

    ghost predicate Valid()
      reads this
    {
      savedOpcodes.Length == MAX_SAVED_LENGTH && savedOpcodeLength <= MAX_SAVED_LENGTH
    }

    ghost function Value(): Hook
      requires Valid()
      reads this, savedOpcodes
    {
      Hook(originalFunctionAddr, savedOpcodes[..savedOpcodeLength], trampoline, redirectedFunction)
    }
  }

  method AttachHook(p: Platform, d: Decoder, memory: AddressSpace, hook: HookEntry, proxy: int, os: Os)
    returns (status: Status)
    requires hook.Valid() && (hook.trampoline == 0 ==> hook.savedOpcodeLength == 0)
    requires 0 <= proxy < Modulus(p)
    requires FreshAllocation(p, memory.bytes, os)
    modifies memory, hook`savedOpcodeLength, hook`trampoline, hook.savedOpcodes
    ensures hook.Valid()
    ensures AttachOutcome(p, d, old(memory.bytes), old(hook.Value()), proxy, os) ==
      Attempt(status, memory.bytes, if status == Ok then hook.Value().(redirected := hook.trampoline) else hook.Value())
    ensures status == Ok ==> hook.trampoline != 0
  {
    hide Wrap, Write, Read, Unmap, Mapped, Unmapped, Rel32, Dword, FromDword, TrampolineBytes,
         AnalysisFrom, Fill, Redirection;
    var target := hook.originalFunctionAddr;
    if target == 0 || proxy == 0 {
      return NullTarget;
    }
    if hook.trampoline != 0 {
      return AlreadyAttached;
    }

    var analysis, length, hasRelocation, relocationOffset := Analyze(d, memory, target);
    if analysis != Ok {
      return analysis;
    }
    ghost var relocation := if hasRelocation then Some(relocationOffset) else None;

    var jumpToProxy := Rel32(p, target + JUMP_LENGTH, proxy);
    if jumpToProxy.None? {
      return OutOfRange;
    }

    if os.allocateAt.None? {
      return AllocationFailed;
    }
    var trampoline := os.allocateAt.value;
    ghost var mem := memory.bytes;
    memory.bytes := Write(memory.bytes, trampoline, Fill(length + JUMP_LENGTH, 0));
    FreshIsApart(p, mem, target, length, os);
    var inRange, trampolineBytes :=
      WriteTrampoline(p, memory, target, trampoline, length, hasRelocation, relocationOffset, mem);

    if !inRange {
      Release(memory, trampoline, length + JUMP_LENGTH, os, mem, trampolineBytes);
      return OutOfRange;
    }
    if !os.writable {
      Release(memory, trampoline, length + JUMP_LENGTH, os, mem, trampolineBytes);
      return ProtectionFailed;
    }

    ReadElsewhere(mem, target, length, trampoline, trampolineBytes);
    SaveAndRedirect(memory, hook, length, jumpToProxy.value);
    hook.savedOpcodeLength := length;
    hook.trampoline := trampoline;
    return Ok;
  }

  lemma FreshIsApart(p: Platform, mem: Memory, target: int, length: nat, os: Os)
    requires JUMP_LENGTH <= length <= MAX_SAVED_LENGTH && Mapped(mem, target, length)
    requires os.allocateAt.Some? && FreshAllocation(p, mem, os)
    ensures var t := os.allocateAt.value;
      && Unmapped(mem, t, length + JUMP_LENGTH)
      && (target + length <= t || t + length + JUMP_LENGTH <= target)
  {
    MappedApart(mem, target, length, os.allocateAt.value, length + JUMP_LENGTH);
  }

  /** munmap or VirtualFree of the trampoline on a failure path: its result is ignored. */
  method Release(memory: AddressSpace, trampoline: int, length: nat, os: Os, ghost mem: Memory, ghost bytes: seq<Byte>)
    requires length == |bytes| && Unmapped(mem, trampoline, length)
    requires memory.bytes == Write(mem, trampoline, bytes)
    modifies memory
    ensures memory.bytes == AfterRelease(mem, trampoline, bytes, os)
  {
    if os.releases {
      memory.bytes := Unmap(memory.bytes, trampoline, length);
      UnmapWrite(mem, trampoline, bytes);
    }
  }

  /** The part of AttachHook that runs with the code writable. */
  method SaveAndRedirect(memory: AddressSpace, hook: HookEntry, length: nat, jumpToProxy: int)
    requires hook.Valid() && JUMP_LENGTH <= length <= MAX_SAVED_LENGTH && IsInt32(jumpToProxy)
    requires Mapped(memory.bytes, hook.originalFunctionAddr, length)
    modifies memory, hook.savedOpcodes
    ensures hook.savedOpcodes[..length] == Read(old(memory.bytes), hook.originalFunctionAddr, length)
    ensures memory.bytes == Write(old(memory.bytes), hook.originalFunctionAddr, Redirection(jumpToProxy, length))
  {
    var target := hook.originalFunctionAddr;
    SaveOpcodes(memory, hook, length);

    ghost var mem := memory.bytes;
    memory.bytes := Write(memory.bytes, target, Fill(length, NOP));
    memory.bytes := Write(memory.bytes, target, [JMP]);
    memory.bytes := Write(memory.bytes, target + 1, Dword(jumpToProxy));
    RedirectionInSteps(mem, target, length, jumpToProxy);
  }

  method SaveOpcodes(memory: AddressSpace, hook: HookEntry, length: nat)
    requires hook.Valid() && length <= MAX_SAVED_LENGTH
    requires Mapped(memory.bytes, hook.originalFunctionAddr, length)
    modifies hook.savedOpcodes
    ensures hook.savedOpcodes[..length] == Read(memory.bytes, hook.originalFunctionAddr, length)
  {
    for i := 0 to length
      invariant hook.savedOpcodes[..i] == Read(memory.bytes, hook.originalFunctionAddr, length)[..i]
    {
      hook.savedOpcodes[i] := memory.bytes[hook.originalFunctionAddr + i];
    }
  }

  lemma RedirectionInSteps(mem: Memory, target: int, length: nat, jumpToProxy: int)
    requires JUMP_LENGTH <= length && IsInt32(jumpToProxy)
    ensures Write(Write(Write(mem, target, Fill(length, NOP)), target, [JMP]), target + 1, Dword(jumpToProxy))
         == Write(mem, target, Redirection(jumpToProxy, length))
  {
    hide Dword, Write;
    WriteInside(mem, target, Fill(length, NOP), 0, [JMP]);
    var afterJmp := Fill(length, NOP)[..0] + [JMP] + Fill(length, NOP)[1..];
    WriteInside(mem, target, afterJmp, 1, Dword(jumpToProxy));
    assert afterJmp[..1] == [JMP] && afterJmp[JUMP_LENGTH..] == Fill(length - JUMP_LENGTH, NOP);
  }

  /** The part of AttachHook that fills the allocated trampoline. `mem` is the memory before the allocation. */
  method WriteTrampoline(p: Platform, memory: AddressSpace, target: int, trampoline: int, length: nat,
                         hasRelocation: bool, relocationOffset: nat, ghost mem: Memory)
    returns (inRange: bool, ghost written: seq<Byte>)
    requires JUMP_LENGTH <= length && Mapped(mem, target, length)
    requires target + length <= trampoline || trampoline + length + JUMP_LENGTH <= target
    requires hasRelocation ==> relocationOffset + JUMP_LENGTH <= length
    requires memory.bytes == Write(mem, trampoline, Fill(length + JUMP_LENGTH, 0))
    modifies memory
    ensures |written| == length + JUMP_LENGTH && memory.bytes == Write(mem, trampoline, written)
    ensures var copy := Read(mem, target, length);
            var relocation := if hasRelocation then Some(relocationOffset) else None;
            var bytes := TrampolineBytes(p, copy, target, trampoline, relocation);
      && inRange == bytes.Some?
      && written == if inRange then bytes.value else copy + Fill(JUMP_LENGTH, 0)
  {
    hide Wrap, Write, Read, Unmap, Mapped, Unmapped, Rel32, Dword, FromDword, Relocated;
    ghost var copy := Read(mem, target, length);
    ReadElsewhere(mem, target, length, trampoline, Fill(length + JUMP_LENGTH, 0));
    memory.bytes := Write(memory.bytes, trampoline, Read(memory.bytes, target, length));
    CopyInSteps(mem, trampoline, copy);
    written := copy + Fill(JUMP_LENGTH, 0);

    var jumpBack := Rel32(p, trampoline + length + JUMP_LENGTH, Wrap(p, target + length));
    if jumpBack.None? {
      return false, written;
    }
    ghost var moved;
    inRange, moved := Relocate(p, memory, target, trampoline, length, hasRelocation, relocationOffset, mem);
    if inRange {
      memory.bytes := Write(memory.bytes, trampoline + length, [JMP]);
      memory.bytes := Write(memory.bytes, trampoline + (length + 1), Dword(jumpBack.value));
      JumpBackInSteps(mem, trampoline, moved, jumpBack.value);
      written := moved + Jump(jumpBack.value);
    }
  }

  /** Aims the rel32 in the copy where the one in the function goes, from its new address. */
  method Relocate(p: Platform, memory: AddressSpace, target: int, trampoline: int, length: nat,
                  hasRelocation: bool, relocationOffset: nat, ghost mem: Memory)
    returns (inRange: bool, ghost moved: seq<Byte>)
    requires Mapped(mem, target, length)
    requires target + length <= trampoline || trampoline + length + JUMP_LENGTH <= target
    requires hasRelocation ==> relocationOffset + JUMP_LENGTH <= length
    requires memory.bytes == Write(mem, trampoline, Read(mem, target, length) + Fill(JUMP_LENGTH, 0))
    modifies memory
    ensures |moved| == length && memory.bytes == Write(mem, trampoline, moved + Fill(JUMP_LENGTH, 0))
    ensures var copy := Read(mem, target, length);
            var r := Relocated(p, copy, target, trampoline, if hasRelocation then Some(relocationOffset) else None);
      && inRange == r.Some?
      && moved == if inRange then r.value else copy
  {
    hide Wrap, Write, Read, Unmap, Mapped, Unmapped, Rel32, Dword, FromDword;
    ghost var copy := Read(mem, target, length);
    inRange, moved := true, copy;
    if hasRelocation {
      ReadElsewhere(mem, target, length, trampoline, copy + Fill(JUMP_LENGTH, 0));
      var offset := FromDword(Read(memory.bytes, target, length)[relocationOffset + 1..relocationOffset + JUMP_LENGTH]);
      var destination := Wrap(p, target + relocationOffset + JUMP_LENGTH + offset);
      var newOffset := Rel32(p, trampoline + relocationOffset + JUMP_LENGTH, destination);
      inRange := newOffset.Some?;
      if inRange {
        memory.bytes := Write(memory.bytes, trampoline + (relocationOffset + 1), Dword(newOffset.value));
        RelocationInSteps(mem, trampoline, copy, relocationOffset, newOffset.value);
        moved := copy[..relocationOffset + 1] + Dword(newOffset.value) + copy[relocationOffset + JUMP_LENGTH..];
      }
    }
  }

  lemma CopyInSteps(mem: Memory, trampoline: int, copy: seq<Byte>)
    ensures Write(Write(mem, trampoline, Fill(|copy| + JUMP_LENGTH, 0)), trampoline, copy)
         == Write(mem, trampoline, copy + Fill(JUMP_LENGTH, 0))
  {
    hide Fill, Write;
    var zeros := Fill(|copy| + JUMP_LENGTH, 0);
    WriteInside(mem, trampoline, zeros, 0, copy);
    assert zeros[..0] == [] && zeros[|copy|..] == Fill(JUMP_LENGTH, 0);
    assert [] + copy + Fill(JUMP_LENGTH, 0) == copy + Fill(JUMP_LENGTH, 0);
  }

  lemma RelocationInSteps(mem: Memory, trampoline: int, copy: seq<Byte>, o: nat, offset: int)
    requires o + JUMP_LENGTH <= |copy| && IsInt32(offset)
    ensures var moved := copy[..o + 1] + Dword(offset) + copy[o + JUMP_LENGTH..];
      Write(Write(mem, trampoline, copy + Fill(JUMP_LENGTH, 0)), trampoline + (o + 1), Dword(offset))
      == Write(mem, trampoline, moved + Fill(JUMP_LENGTH, 0))
  {
    hide Dword, Write;
    var before := copy + Fill(JUMP_LENGTH, 0);
    WriteInside(mem, trampoline, before, o + 1, Dword(offset));
    assert before[..o + 1] + Dword(offset) + before[o + JUMP_LENGTH..]
        == copy[..o + 1] + Dword(offset) + copy[o + JUMP_LENGTH..] + Fill(JUMP_LENGTH, 0);
  }

  lemma JumpBackInSteps(mem: Memory, trampoline: int, copy: seq<Byte>, offset: int)
    requires IsInt32(offset)
    ensures Write(Write(Write(mem, trampoline, copy + Fill(JUMP_LENGTH, 0)), trampoline + |copy|, [JMP]),
                  trampoline + (|copy| + 1), Dword(offset))
         == Write(mem, trampoline, copy + Jump(offset))
  {
    hide Dword, Write;
    var zeros := copy + Fill(JUMP_LENGTH, 0);
    var withJmp := copy + ([JMP] + Fill(JUMP_LENGTH - 1, 0));
    WriteInside(mem, trampoline, zeros, |copy|, [JMP]);
    assert zeros[..|copy|] + [JMP] + zeros[|copy| + 1..] == withJmp;
    WriteInside(mem, trampoline, withJmp, |copy| + 1, Dword(offset));
    JumpBackBytes(copy, Dword(offset));
  }

  lemma JumpBackBytes(copy: seq<Byte>, offset: seq<Byte>)
    requires |offset| == 4
    ensures var withJmp := copy + ([JMP] + Fill(JUMP_LENGTH - 1, 0));
      withJmp[..|copy| + 1] + offset + withJmp[|copy| + JUMP_LENGTH..] == copy + ([JMP] + offset)
  {
  }

  /** The Attach template: the pointer to the original function is set only when the hook is attached. */
  method Attach(p: Platform, d: Decoder, memory: AddressSpace, hook: HookEntry, proxy: int, os: Os)
    returns (status: Status)
    requires hook.Valid() && (hook.trampoline == 0 ==> hook.savedOpcodeLength == 0)
    requires 0 <= proxy < Modulus(p)
    requires FreshAllocation(p, memory.bytes, os)
    modifies memory, hook, hook.savedOpcodes
    ensures hook.Valid()
    ensures AttachOutcome(p, d, old(memory.bytes), old(hook.Value()), proxy, os) ==
      Attempt(status, memory.bytes, hook.Value())
  {
    status := AttachHook(p, d, memory, hook, proxy, os);
    if status == Ok {
      hook.redirectedFunction := hook.trampoline;
    }
  }

  /** The saved bytes go back over the prefix; the trampoline would not do, since its rel32 is another. */
  method DetachHook(memory: AddressSpace, hook: HookEntry, os: Os) returns (status: Status)
    requires hook.Valid()
    modifies memory, hook`savedOpcodeLength, hook`trampoline
    ensures hook.Valid()
    ensures DetachOutcome(old(memory.bytes), old(hook.Value()), os) ==
      Attempt(status, memory.bytes, if status == Ok then hook.Value().(redirected := 0) else hook.Value())
  {
    if hook.trampoline == 0 {
      return Ok;
    }
    if !os.writable {
      return ProtectionFailed;
    }
    memory.bytes := Write(memory.bytes, hook.originalFunctionAddr, hook.savedOpcodes[..hook.savedOpcodeLength]);
    if os.releases {
      memory.bytes := Unmap(memory.bytes, hook.trampoline, hook.savedOpcodeLength + JUMP_LENGTH);
    }
    hook.trampoline := 0;
    hook.savedOpcodeLength := 0;
    return if os.releases then Ok else ReleaseFailed;
  }

  /** The Detach template: the pointer is cleared only on Ok, so a failed release leaves it set. */
  method Detach(memory: AddressSpace, hook: HookEntry, os: Os) returns (status: Status)
    requires hook.Valid()
    modifies memory, hook
    ensures hook.Valid()
    ensures DetachOutcome(old(memory.bytes), old(hook.Value()), os) == Attempt(status, memory.bytes, hook.Value())
  {
    status := DetachHook(memory, hook, os);
    if status == Ok {
      hook.redirectedFunction := 0;
    }
  }
}
