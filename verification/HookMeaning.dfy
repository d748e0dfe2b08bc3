// What a hook means for the program: running from the trampoline simulates running the original prefix.
//
// The processor is abstract: a decoder, and a function that says what one instruction does to the data and where
// control goes next. Return addresses are kept apart from the data, so an instruction cannot look at its own.

module HookMeaning {
  import opened Wrappers
  import opened HookUtils

  datatype Flow = Next | Goto(destination: int) | Call(destination: int) | Return

  /** exec(bytes, address, data): what the instruction with this encoding does at this address. */
  datatype Processor<!S> = Processor(decode: Decoder, exec: (seq<Byte>, int, S) -> (S, Flow))

  datatype Cpu<S> = Cpu(pc: int, callers: seq<int>, data: S)

  /** A call or jmp rel32 with this encoding. */
  ghost predicate EncodesRel32(d: Decoder, bytes: seq<Byte>) {
    && |bytes| == JUMP_LENGTH
    && d(bytes).Some?
    && IsRel32CallOrJmp(Decoded(JUMP_LENGTH, d(bytes).value))
    && d(bytes).value.relative
    && d(bytes).value.opcode == bytes[0]
  }

  /** The parts of the x86 encoding that the hooks rely on. */
  ghost predicate X86Like<S(!new)>(p: Platform, cpu: Processor<S>) {
    && (forall bytes: seq<Byte> | |bytes| == JUMP_LENGTH && (bytes[0] == CALL || bytes[0] == JMP) ::
          EncodesRel32(cpu.decode, bytes))
    && (forall bytes: seq<Byte> | 0 < |bytes| < JUMP_LENGTH && (bytes[0] == CALL || bytes[0] == JMP) ::
          cpu.decode(bytes) == None)
    && (forall bytes: seq<Byte> | |bytes| == JUMP_LENGTH && cpu.decode(bytes).Some? &&
          IsRel32CallOrJmp(Decoded(JUMP_LENGTH, cpu.decode(bytes).value)) ::
          cpu.decode(bytes).value.opcode == bytes[0])
    && (forall bytes: seq<Byte>, pc: int, data: S | EncodesRel32(cpu.decode, bytes) ::
          cpu.exec(bytes, pc, data) == (data, Rel32Flow(p, bytes, pc)))
    && (forall bytes: seq<Byte>, pc: int, pc': int, data: S
          | cpu.decode(bytes).Some? && !cpu.decode(bytes).value.relative ::
          cpu.exec(bytes, pc, data) == cpu.exec(bytes, pc', data))
  }

  function Rel32Flow(p: Platform, bytes: seq<Byte>, pc: int): (r: Flow)
    requires |bytes| == JUMP_LENGTH
    ensures r.Call? || r.Goto?
  {
    var destination := Wrap(p, pc + JUMP_LENGTH + FromDword(bytes[1..]));
    if bytes[0] == CALL then Call(destination) else Goto(destination)
  }

  predicate StartsRel32(bytes: seq<Byte>) { |bytes| == JUMP_LENGTH && (bytes[0] == CALL || bytes[0] == JMP) }

  /** A processor that only knows nop, and call and jmp rel32. */
  function SmallX86(p: Platform): Processor<int> {
    Processor(
      (bytes: seq<Byte>) =>
        if StartsRel32(bytes) then Some(Instruction(true, true, bytes[0], true, 32, false))
        else if bytes == [NOP] then Some(Instruction(false, true, NOP, false, 0, false))
        else None,
      (bytes: seq<Byte>, pc: int, data: int) =>
        (data, if StartsRel32(bytes) then Rel32Flow(p, bytes, pc) else Next))
  }

  /** The assumptions can be met. */
  lemma SomeProcessorIsX86Like(p: Platform)
    ensures X86Like(p, SmallX86(p))
  {
    hide Wrap, FromDword, Rel32Flow;
  }

  /** One instruction; none on a fault (undecodable code, or a return with no caller). */
  function Step<S>(p: Platform, cpu: Processor<S>, mem: Memory, c: Cpu<S>): Option<Cpu<S>> {
    match Decode(cpu.decode, mem, c.pc)
    case None => None
    case Some(decoded) =>
      var (data, flow) := cpu.exec(Read(mem, c.pc, decoded.length), c.pc, c.data);
      Follow(Wrap(p, c.pc + decoded.length), flow, c.callers, data)
  }

  function Follow<S>(next: int, flow: Flow, callers: seq<int>, data: S): Option<Cpu<S>> {
    match flow
    case Next => Some(Cpu(next, callers, data))
    case Goto(destination) => Some(Cpu(destination, callers, data))
    case Call(destination) => Some(Cpu(destination, [next] + callers, data))
    case Return => if callers == [] then None else Some(Cpu(callers[0], callers[1..], data))
  }

  function Run<S>(p: Platform, cpu: Processor<S>, mem: Memory, c: Cpu<S>, n: nat): Option<Cpu<S>>
    decreases n
  {
    if n == 0 then Some(c)
    else
      match Step(p, cpu, mem, c)
      case None => None
      case Some(c') => Run(p, cpu, mem, c', n - 1)
  }

  lemma {:induction false} RunAppend<S(!new)>(p: Platform, cpu: Processor<S>, mem: Memory, c: Cpu<S>, n: nat, m: nat)
    requires Run(p, cpu, mem, c, n).Some?
    ensures Run(p, cpu, mem, c, n + m) == Run(p, cpu, mem, Run(p, cpu, mem, c, n).value, m)
    decreases n
  {
    if n > 0 {
      RunAppend(p, cpu, mem, Step(p, cpu, mem, c).value, n - 1, m);
    }
  }

  /** An attached hook, as the analysis and AttachHook leave it. `before` is the memory before the call. */
  datatype Attached = Attached(before: Memory, after: Memory, target: int, proxy: int, trampoline: int,
                               length: nat, relocation: Option<nat>)

  ghost predicate IsAttached<S>(p: Platform, cpu: Processor<S>, h: Attached) {
    && JUMP_LENGTH <= h.length <= MAX_SAVED_LENGTH
    && 0 < h.target && h.target + h.length < Modulus(p)
    && 0 < h.trampoline && h.trampoline + h.length + JUMP_LENGTH <= Modulus(p)
    && 0 <= h.proxy < Modulus(p)
    && Mapped(h.before, h.target, h.length)
    && Unmapped(h.before, h.trampoline, h.length + JUMP_LENGTH)
    && (h.relocation.Some? ==> h.relocation.value + JUMP_LENGTH == h.length)
    && Movable(cpu.decode, h.before, h.target, 0, h.length, h.relocation)
    && var bytes := TrampolineBytes(p, Read(h.before, h.target, h.length), h.target, h.trampoline, h.relocation);
       var jump := Rel32(p, h.target + JUMP_LENGTH, h.proxy);
    && bytes.Some? && jump.Some?
    && h.after == Write(Write(h.before, h.trampoline, bytes.value), h.target, Redirection(jump.value, h.length))
  }

  /** A successful AttachHook makes such a hook. */
  lemma AttachAttaches<S(!new)>(p: Platform, cpu: Processor<S>, mem: Memory, hook: Hook, proxy: int, os: Os)
    requires 0 <= proxy < Modulus(p)
    requires 0 <= hook.target && hook.target + MAX_SAVED_LENGTH < Modulus(p)
    requires FreshAllocation(p, mem, os)
    requires AttachOutcome(p, cpu.decode, mem, hook, proxy, os).status == Ok
    ensures var r := AttachOutcome(p, cpu.decode, mem, hook, proxy, os);
            var a := AnalysisFrom(cpu.decode, mem, hook.target, 0);
      && a.Prefix?
      && IsAttached(p, cpu, Attached(mem, r.mem, hook.target, proxy, r.hook.trampoline, a.length, a.relocation))
  {
    hide Write, Read, Rel32, Wrap, TrampolineBytes, Relocated, Movable, AnalysisFrom;
    AnalysisIsMovable(cpu.decode, mem, hook.target, 0);
  }

  // ---------- The correspondence between the two programs ----------

  predicate InPrefix(h: Attached, a: int) { h.target <= a < h.target + h.length }

  /** Inside the prefix, past its first byte. */
  predicate InMiddle(h: Attached, a: int) { h.target < a < h.target + h.length }

  /**
   * Where the hooked program is when the original one is at a: at the same place, the target included, or past the
   * first instruction of the prefix at the copy of a in the trampoline, or at the jump back when a is the end.
   */
  ghost predicate Corresponds<S>(cpu: Processor<S>, h: Attached, a: int, b: int) {
    || (a == b && !InMiddle(h, a))
    || (&& 0 < a - h.target <= h.length
        && b - h.trampoline == a - h.target
        && Movable(cpu.decode, h.before, h.target, a - h.target, h.length, h.relocation))
  }

  ghost predicate SameBut<S>(cpu: Processor<S>, h: Attached, c: Cpu<S>, t: Cpu<S>) {
    && c.data == t.data
    && |c.callers| == |t.callers|
    && forall i | 0 <= i < |c.callers| :: Corresponds(cpu, h, c.callers[i], t.callers[i])
  }

  /** The two programs after a step: when the original one is at the target, so is the hooked one. */
  ghost predicate Follows<S>(cpu: Processor<S>, h: Attached, c: Cpu<S>, t: Cpu<S>) {
    SameBut(cpu, h, c, t) && Corresponds(cpu, h, c.pc, t.pc)
  }

  /** Or at the start of a call through the trampoline. */
  ghost predicate Simulates<S>(cpu: Processor<S>, h: Attached, c: Cpu<S>, t: Cpu<S>) {
    Follows(cpu, h, c, t) || (SameBut(cpu, h, c, t) && c.pc == h.target && t.pc == h.trampoline)
  }

  /**
   * The original program does not enter the middle of the prefix but through the prefix, or a return into it: the
   * hook has written over these bytes. It may enter the target, from anywhere.
   */
  ghost predicate KeepsOut<S>(p: Platform, cpu: Processor<S>, h: Attached, c: Cpu<S>) {
    match Decode(cpu.decode, h.before, c.pc)
    case None => true
    case Some(decoded) =>
      var (_, flow) := cpu.exec(Read(h.before, c.pc, decoded.length), c.pc, c.data);
      var next := Wrap(p, c.pc + decoded.length);
      && (flow.Goto? || flow.Call? ==> !InMiddle(h, flow.destination))
      && (!InPrefix(h, c.pc) ==>
            && (c.pc + decoded.length <= h.target || h.target + h.length <= c.pc)
            && (flow.Next? || flow.Call? ==> !InMiddle(h, next)))
  }

  // ---------- One step ----------

  lemma AfterElsewhere<S(!new)>(p: Platform, cpu: Processor<S>, h: Attached, a: int, length: nat)
    requires IsAttached(p, cpu, h)
    requires Mapped(h.before, a, length)
    requires a + length <= h.target || h.target + h.length <= a
    ensures Mapped(h.after, a, length) && Read(h.after, a, length) == Read(h.before, a, length)
  {
    hide Rel32, Wrap, TrampolineBytes, Relocated, Movable, Redirection;
    var bytes := TrampolineBytes(p, Read(h.before, h.target, h.length), h.target, h.trampoline, h.relocation).value;
    var jump := Rel32(p, h.target + JUMP_LENGTH, h.proxy).value;
    if length > 0 {
      MappedApart(h.before, a, length, h.trampoline, h.length + JUMP_LENGTH);
      ReadElsewhere(h.before, a, length, h.trampoline, bytes);
      ReadElsewhere(Write(h.before, h.trampoline, bytes), a, length, h.target, Redirection(jump, h.length));
    }
  }

  /** The trampoline holds its bytes: the jump written over the target does not reach it. */
  lemma TrampolineIsThere<S(!new)>(p: Platform, cpu: Processor<S>, h: Attached, k: nat, length: nat)
    requires IsAttached(p, cpu, h)
    requires k + length <= h.length + JUMP_LENGTH
    ensures Mapped(h.after, h.trampoline + k, length)
    ensures Read(h.after, h.trampoline + k, length)
         == TrampolineBytes(p, Read(h.before, h.target, h.length), h.target, h.trampoline, h.relocation).value[k..k + length]
  {
    hide Rel32, Wrap, TrampolineBytes, Relocated, Movable, Redirection;
    MappedApart(h.before, h.target, h.length, h.trampoline, h.length + JUMP_LENGTH);
    var bytes := TrampolineBytes(p, Read(h.before, h.target, h.length), h.target, h.trampoline, h.relocation).value;
    var jump := Rel32(p, h.target + JUMP_LENGTH, h.proxy).value;
    var installed := Write(h.before, h.trampoline, bytes);
    assert Mapped(installed, h.trampoline + k, length);
    assert Read(installed, h.trampoline + k, length) == bytes[k..k + length];
    ReadElsewhere(installed, h.trampoline + k, length, h.target, Redirection(jump, h.length));
  }

  /** The jump written at an address is decoded as such, whatever follows it. */
  lemma DecodesRel32<S(!new)>(p: Platform, cpu: Processor<S>, mem: Memory, a: int, bytes: seq<Byte>)
    requires X86Like(p, cpu)
    requires |bytes| == JUMP_LENGTH && (bytes[0] == CALL || bytes[0] == JMP)
    requires Mapped(mem, a, JUMP_LENGTH) && Read(mem, a, JUMP_LENGTH) == bytes
    ensures Decode(cpu.decode, mem, a) == Some(Decoded(JUMP_LENGTH, cpu.decode(bytes).value))
    ensures EncodesRel32(cpu.decode, bytes)
  {
    hide Wrap, FromDword;
    assert EncodesRel32(cpu.decode, bytes);
    forall n: nat | 1 <= n < JUMP_LENGTH
      ensures cpu.decode(Read(mem, a, n)) == None
    {
      assert Read(mem, a, n) == Read(mem, a, JUMP_LENGTH)[..n];
    }
    assert DecodeFrom(cpu.decode, mem, a, 5) == Some(Decoded(JUMP_LENGTH, cpu.decode(bytes).value));
    assert DecodeFrom(cpu.decode, mem, a, 4) == DecodeFrom(cpu.decode, mem, a, 5);
    assert DecodeFrom(cpu.decode, mem, a, 3) == DecodeFrom(cpu.decode, mem, a, 4);
    assert DecodeFrom(cpu.decode, mem, a, 2) == DecodeFrom(cpu.decode, mem, a, 3);
  }

  /** On x86 a function that starts with a call or jmp rel32 can be hooked wherever it is, if the system lets it. */
  lemma CallOrJmpCanBeHooked<S(!new)>(cpu: Processor<S>, mem: Memory, hook: Hook, proxy: int, os: Os)
    requires X86Like(X86, cpu) && 0 < proxy < Modulus(X86)
    requires hook.target != 0 && hook.trampoline == 0 && Mapped(mem, hook.target, JUMP_LENGTH)
    requires mem[hook.target] == CALL || mem[hook.target] == JMP
    requires os.allocateAt.Some? && os.writable
    ensures AttachOutcome(X86, cpu.decode, mem, hook, proxy, os).status == Ok
  {
    hide X86Like, Wrap, Decode, Write, Dword, FromDword;
    var bytes := Read(mem, hook.target, JUMP_LENGTH);
    assert bytes[0] == mem[hook.target];
    DecodesRel32(X86, cpu, mem, hook.target, bytes);
    var analysis := AnalysisFrom(cpu.decode, mem, hook.target, 0);
    assert analysis == Prefix(JUMP_LENGTH, Some(0));
  }

  /** A jmp or call rel32 in memory goes where its offset says. */
  lemma StepRel32<S(!new)>(p: Platform, cpu: Processor<S>, mem: Memory, c: Cpu<S>, bytes: seq<Byte>)
    requires X86Like(p, cpu)
    requires |bytes| == JUMP_LENGTH && (bytes[0] == CALL || bytes[0] == JMP)
    requires Mapped(mem, c.pc, JUMP_LENGTH) && Read(mem, c.pc, JUMP_LENGTH) == bytes
    ensures Step(p, cpu, mem, c) == Follow(Wrap(p, c.pc + JUMP_LENGTH), Rel32Flow(p, bytes, c.pc), c.callers, c.data)
  {
    hide Wrap, FromDword, Rel32Flow, Decode;
    DecodesRel32(p, cpu, mem, c.pc, bytes);
    assert cpu.exec(bytes, c.pc, c.data) == (c.data, Rel32Flow(p, bytes, c.pc));
  }

  /** Whether the flow goes to an address of its own choice in the middle of the prefix. */
  predicate EntersMiddle(h: Attached, flow: Flow) { (flow.Goto? || flow.Call?) && InMiddle(h, flow.destination) }

  /** The same control flow gives related results, from related return addresses, unless it enters the middle. */
  lemma FollowSimulates<S(!new)>(p: Platform, cpu: Processor<S>, h: Attached, c: Cpu<S>, t: Cpu<S>, next: int, next': int,
                                 flow: Flow, data: S)
    requires IsAttached(p, cpu, h) && SameBut(cpu, h, c, t)
    requires flow.Next? || flow.Call? ==> Corresponds(cpu, h, next, next')
    requires Follow(next, flow, c.callers, data).Some?
    ensures Follow(next', flow, t.callers, data).Some?
    ensures Follows(cpu, h, Follow(next, flow, c.callers, data).value, Follow(next', flow, t.callers, data).value)
       <==> !EntersMiddle(h, flow)
  {
    hide Corresponds, InMiddle, IsAttached;
    if flow.Goto? || flow.Call? {
      if InMiddle(h, flow.destination) {
        NotTheSamePlace(p, cpu, h, flow.destination);
      } else {
        SamePlace(cpu, h, flow.destination);
      }
    }
  }

  lemma NotTheSamePlace<S(!new)>(p: Platform, cpu: Processor<S>, h: Attached, a: int)
    requires IsAttached(p, cpu, h) && InMiddle(h, a)
    ensures !Corresponds(cpu, h, a, a)
  {
    hide IsAttached, Movable;
    TrampolineIsApart(p, cpu, h);
  }

  lemma SamePlace<S(!new)>(cpu: Processor<S>, h: Attached, a: int)
    requires !InMiddle(h, a)
    ensures Corresponds(cpu, h, a, a)
  {
  }

  /** Outside the prefix both programs run the same bytes at the same address. */
  lemma StepOutside<S(!new)>(p: Platform, cpu: Processor<S>, h: Attached, c: Cpu<S>, t: Cpu<S>)
    requires IsAttached(p, cpu, h) && SameBut(cpu, h, c, t) && KeepsOut(p, cpu, h, c)
    requires c.pc == t.pc && !InPrefix(h, c.pc)
    requires Step(p, cpu, h.before, c).Some?
    ensures Step(p, cpu, h.after, t).Some?
    ensures Follows(cpu, h, Step(p, cpu, h.before, c).value, Step(p, cpu, h.after, t).value)
  {
    hide Wrap, Read, IsAttached, Corresponds, Follow, SameBut, Follows, Mapped;
    SameData(cpu, h, c, t);
    var decoded := Decode(cpu.decode, h.before, c.pc).value;
    AfterElsewhere(p, cpu, h, c.pc, decoded.length);
    DecodeLocal(cpu.decode, h.before, c.pc, h.after, c.pc);
    var (data, flow) := cpu.exec(Read(h.before, c.pc, decoded.length), c.pc, c.data);
    var next := Wrap(p, c.pc + decoded.length);
    if !InMiddle(h, next) {
      SamePlace(cpu, h, next);
    }
    FollowSimulates(p, cpu, h, c, t, next, next, flow, data);
  }

  lemma SameData<S(!new)>(cpu: Processor<S>, h: Attached, c: Cpu<S>, t: Cpu<S>)
    requires SameBut(cpu, h, c, t)
    ensures c.data == t.data
  {
  }

  /** What the instruction at c does to control. */
  function FlowAt<S>(cpu: Processor<S>, mem: Memory, c: Cpu<S>): Flow {
    match Decode(cpu.decode, mem, c.pc)
    case None => Next
    case Some(decoded) => cpu.exec(Read(mem, c.pc, decoded.length), c.pc, c.data).1
  }

  /**
   * An instruction of the prefix that is not relative does the same from the trampoline, unless it jumps into the
   * middle, where the two programs have other bytes.
   */
  lemma StepMoved<S(!new)>(p: Platform, cpu: Processor<S>, h: Attached, c: Cpu<S>, t: Cpu<S>, k: nat)
    requires IsAttached(p, cpu, h) && X86Like(p, cpu) && SameBut(cpu, h, c, t)
    requires k < h.length && c.pc == h.target + k && t.pc == h.trampoline + k
    requires Movable(cpu.decode, h.before, h.target, k, h.length, h.relocation) && h.relocation != Some(k)
    requires Step(p, cpu, h.before, c).Some?
    ensures Step(p, cpu, h.after, t).Some?
    ensures Follows(cpu, h, Step(p, cpu, h.before, c).value, Step(p, cpu, h.after, t).value)
       <==> !EntersMiddle(h, FlowAt(cpu, h.before, c))
  {
    hide Rel32, Wrap, FromDword, Follow, SameBut, Follows, IsAttached, X86Like, Read, Mapped, Decode;
    var decoded := Decode(cpu.decode, h.before, c.pc).value;
    MovedBytes(p, cpu, h, k, decoded.length);
    DecodeLocal(cpu.decode, h.before, c.pc, h.after, t.pc);
    SameData(cpu, h, c, t);
    var bytes := Read(h.before, c.pc, decoded.length);
    SameEffect(p, cpu, bytes, c.pc, t.pc, c.data);
    var (data, flow) := cpu.exec(bytes, c.pc, c.data);
    NextInRange(p, cpu, h, k + decoded.length);
    FollowSimulates(p, cpu, h, c, t, c.pc + decoded.length, t.pc + decoded.length, flow, data);
  }

  /** A non-relative instruction does the same wherever it is. */
  lemma SameEffect<S(!new)>(p: Platform, cpu: Processor<S>, bytes: seq<Byte>, pc: int, pc': int, data: S)
    requires X86Like(p, cpu) && cpu.decode(bytes).Some? && !cpu.decode(bytes).value.relative
    ensures cpu.exec(bytes, pc, data) == cpu.exec(bytes, pc', data)
  {
    hide Rel32Flow, EncodesRel32, IsRel32CallOrJmp;
  }

  /** The addresses of the prefix and of its copy do not wrap around. */
  lemma NextInRange<S(!new)>(p: Platform, cpu: Processor<S>, h: Attached, k: nat)
    requires IsAttached(p, cpu, h) && k <= h.length
    ensures Wrap(p, h.target + k) == h.target + k
    ensures Wrap(p, h.trampoline + k) == h.trampoline + k
  {
    hide Rel32, Redirection, TrampolineBytes, Write, Movable;
  }

  lemma InRangeWrap(p: Platform, x: int)
    requires 0 <= x < Modulus(p)
    ensures Wrap(p, x) == x
  {
  }

  /** The bytes of the trampoline up to the relocation are those of the prefix. */
  lemma MovedBytes<S(!new)>(p: Platform, cpu: Processor<S>, h: Attached, k: nat, length: nat)
    requires IsAttached(p, cpu, h)
    requires k + length <= if h.relocation.Some? then h.relocation.value else h.length
    ensures Mapped(h.before, h.target + k, length) && Mapped(h.after, h.trampoline + k, length)
    ensures Read(h.after, h.trampoline + k, length) == Read(h.before, h.target + k, length)
  {
    hide Rel32, Wrap, FromDword, Dword, Redirection, Write, Movable;
    TrampolineIsThere(p, cpu, h, k, length);
    var copy := Read(h.before, h.target, h.length);
    var here := Read(h.before, h.target + k, length);
    assert forall x | 0 <= x < length :: here[x] == copy[k + x];
    assert here == copy[k..k + length];
  }

  /** Where the relocated call or jmp goes, which can be told from the bytes before the attach. */
  function RelocatedTo(p: Platform, h: Attached, o: nat): int
    requires Mapped(h.before, h.target + o, JUMP_LENGTH)
  {
    Wrap(p, h.target + o + JUMP_LENGTH + FromDword(Read(h.before, h.target + o, JUMP_LENGTH)[1..]))
  }

  /**
   * The relocated call or jmp reaches the same destination, and a call returns to the jump back. That is the same place
   * in both programs if and only if it is not in the middle of the prefix, over which the hook has written.
   */
  lemma StepRelocated<S(!new)>(p: Platform, cpu: Processor<S>, h: Attached, c: Cpu<S>, t: Cpu<S>, o: nat)
    requires IsAttached(p, cpu, h) && X86Like(p, cpu) && SameBut(cpu, h, c, t)
    requires h.relocation == Some(o) && c.pc == h.target + o && t.pc == h.trampoline + o
    requires Movable(cpu.decode, h.before, h.target, o, h.length, h.relocation)
    ensures Step(p, cpu, h.before, c).Some? && Step(p, cpu, h.after, t).Some?
    ensures Mapped(h.before, c.pc, JUMP_LENGTH)
    ensures Step(p, cpu, h.after, t).value.pc == Step(p, cpu, h.before, c).value.pc == RelocatedTo(p, h, o)
    ensures Follows(cpu, h, Step(p, cpu, h.before, c).value, Step(p, cpu, h.after, t).value)
       <==> !InMiddle(h, RelocatedTo(p, h, o))
    ensures EntersMiddle(h, FlowAt(cpu, h.before, c)) <==> InMiddle(h, RelocatedTo(p, h, o))
  {
    hide Wrap, Rel32, FromDword, Dword, SameBut, Follows, Corresponds, IsAttached, X86Like, Decode, Step, InMiddle,
         Read, Mapped;
    LastIsRel32(p, cpu, h, o);
    var bytes := Read(h.before, c.pc, JUMP_LENGTH);
    OriginalRel32(p, cpu, h, bytes, c.pc, c.data);
    StepRel32(p, cpu, h.before, c, bytes);
    var bytes' := RelocatedBytes(p, cpu, h, o);
    StepRel32(p, cpu, h.after, t, bytes');
    SameData(cpu, h, c, t);
    NextInRange(p, cpu, h, h.length);
    EndCorresponds(p, cpu, h);
    DecodesRel32(p, cpu, h.before, c.pc, bytes);
    FollowSimulates(p, cpu, h, c, t, c.pc + JUMP_LENGTH, t.pc + JUMP_LENGTH, Rel32Flow(p, bytes, c.pc), c.data);
  }

  lemma LastIsRel32<S(!new)>(p: Platform, cpu: Processor<S>, h: Attached, o: nat)
    requires IsAttached(p, cpu, h) && h.relocation == Some(o)
    requires Movable(cpu.decode, h.before, h.target, o, h.length, h.relocation)
    ensures o + JUMP_LENGTH == h.length
    ensures var decoded := Decode(cpu.decode, h.before, h.target + o);
      decoded.Some? && IsRel32CallOrJmp(decoded.value) && decoded.value.instruction.relative
  {
    hide Wrap, Rel32, Redirection, TrampolineBytes, Write, Decode;
  }

  /** What the analysis took for a rel32 call or jmp starts with its opcode, and goes where its offset says. */
  lemma OriginalRel32<S(!new)>(p: Platform, cpu: Processor<S>, h: Attached, bytes: seq<Byte>, pc: int, data: S)
    requires X86Like(p, cpu) && |bytes| == JUMP_LENGTH && cpu.decode(bytes).Some? && cpu.decode(bytes).value.relative
    requires IsRel32CallOrJmp(Decoded(JUMP_LENGTH, cpu.decode(bytes).value))
    ensures bytes[0] == CALL || bytes[0] == JMP
    ensures cpu.exec(bytes, pc, data) == (data, Rel32Flow(p, bytes, pc))
  {
    hide Rel32Flow;
    assert EncodesRel32(cpu.decode, bytes);
  }

  lemma EndCorresponds<S(!new)>(p: Platform, cpu: Processor<S>, h: Attached)
    requires IsAttached(p, cpu, h)
    ensures Corresponds(cpu, h, h.target + h.length, h.trampoline + h.length)
  {
  }

  lemma RelocatedBytes<S(!new)>(p: Platform, cpu: Processor<S>, h: Attached, o: nat) returns (bytes': seq<Byte>)
    requires IsAttached(p, cpu, h) && h.relocation == Some(o)
    requires Mapped(h.before, h.target + o, JUMP_LENGTH)
    ensures |bytes'| == JUMP_LENGTH
    ensures Mapped(h.after, h.trampoline + o, JUMP_LENGTH) && Read(h.after, h.trampoline + o, JUMP_LENGTH) == bytes'
    ensures bytes'[0] == Read(h.before, h.target + o, JUMP_LENGTH)[0]
    ensures Rel32Flow(p, bytes', h.trampoline + o) == Rel32Flow(p, Read(h.before, h.target + o, JUMP_LENGTH), h.target + o)
  {
    hide Wrap, Rel32, FromDword, Dword, Redirection, Write, Movable;
    var copy := Read(h.before, h.target, h.length);
    var bytes := Read(h.before, h.target + o, JUMP_LENGTH);
    assert bytes == copy[o..o + JUMP_LENGTH];
    assert bytes[1..] == copy[o + 1..o + JUMP_LENGTH];
    var destination := Wrap(p, h.target + o + JUMP_LENGTH + FromDword(bytes[1..]));
    var offset := Rel32(p, h.trampoline + o + JUMP_LENGTH, destination).value;
    TrampolineIsThere(p, cpu, h, o, JUMP_LENGTH);
    bytes' := [copy[o]] + Dword(offset);
    assert bytes' == Read(h.after, h.trampoline + o, JUMP_LENGTH);
    assert bytes'[1..] == Dword(offset);
    DwordRoundTrip(offset);
    Rel32Reaches(p, h.trampoline + o + JUMP_LENGTH, destination);
  }

  /** From the end of the trampoline, one step is at the end of the prefix. */
  lemma StepBack<S(!new)>(p: Platform, cpu: Processor<S>, h: Attached, t: Cpu<S>)
    requires IsAttached(p, cpu, h) && X86Like(p, cpu)
    requires t.pc == h.trampoline + h.length
    ensures Step(p, cpu, h.after, t) == Some(t.(pc := h.target + h.length))
  {
    hide Wrap, Rel32, FromDword, Dword, Relocated, Redirection, Write, Movable;
    TrampolineIsThere(p, cpu, h, h.length, JUMP_LENGTH);
    InRangeWrap(p, h.target + h.length);
    var offset := Rel32(p, h.trampoline + h.length + JUMP_LENGTH, h.target + h.length).value;
    assert Read(h.after, t.pc, JUMP_LENGTH) == Jump(offset);
    StepRel32(p, cpu, h.after, t, Jump(offset));
    assert Jump(offset)[1..] == Dword(offset);
    DwordRoundTrip(offset);
    Rel32Reaches(p, h.trampoline + h.length + JUMP_LENGTH, h.target + h.length);
  }

  // ---------- Whole runs ----------

  /** The trampoline is nowhere near the target. */
  lemma TrampolineIsApart<S(!new)>(p: Platform, cpu: Processor<S>, h: Attached)
    requires IsAttached(p, cpu, h)
    ensures !(h.trampoline <= h.target <= h.trampoline + h.length)
  {
    hide Rel32, Wrap, TrampolineBytes, Redirection, Write, Movable, Read;
    assert h.target in h.before;
  }

  lemma StaysOutOfMiddle<S(!new)>(p: Platform, cpu: Processor<S>, h: Attached, c: Cpu<S>)
    ensures KeepsOut(p, cpu, h, c) ==> !EntersMiddle(h, FlowAt(cpu, h.before, c))
    ensures InPrefix(h, c.pc) ==> (KeepsOut(p, cpu, h, c) <==> !EntersMiddle(h, FlowAt(cpu, h.before, c)))
  {
    hide Decode, Read;
  }

  /** One step of the original program is one or two of the hooked one (the second is the jump back). */
  lemma StepSimulated<S(!new)>(p: Platform, cpu: Processor<S>, h: Attached, c: Cpu<S>, t: Cpu<S>) returns (m: nat)
    requires IsAttached(p, cpu, h) && X86Like(p, cpu) && Simulates(cpu, h, c, t) && KeepsOut(p, cpu, h, c)
    requires t.pc != h.target && Step(p, cpu, h.before, c).Some?
    ensures 1 <= m <= 2 && Run(p, cpu, h.after, t, m).Some?
    ensures Follows(cpu, h, Step(p, cpu, h.before, c).value, Run(p, cpu, h.after, t, m).value)
  {
    hide Step, X86Like, KeepsOut, Movable, Rel32, TrampolineBytes, Redirection, Write, Mapped, Unmapped, Read,
         EntersMiddle, FlowAt;
    var k := c.pc - h.target;
    if c.pc == t.pc && !InPrefix(h, c.pc) {
      StepOutside(p, cpu, h, c, t);
      m := 1;
    } else if k == h.length {
      StepBack(p, cpu, h, t);
      var t' := t.(pc := c.pc);
      StepOutside(p, cpu, h, c, t');
      m := 2;
    } else {
      StaysOutOfMiddle(p, cpu, h, c);
      if h.relocation == Some(k) {
        StepRelocated(p, cpu, h, c, t, k);
      } else {
        StepMoved(p, cpu, h, c, t, k);
      }
      m := 1;
    }
  }

  /** The original program does not come back to the target before step n; it may at step n. */
  ghost predicate StaysAway<S(!new)>(p: Platform, cpu: Processor<S>, h: Attached, c: Cpu<S>, n: nat) {
    forall i: nat | 0 < i < n && Run(p, cpu, h.before, c, i).Some? :: Run(p, cpu, h.before, c, i).value.pc != h.target
  }

  ghost predicate AlwaysKeepsOut<S(!new)>(p: Platform, cpu: Processor<S>, h: Attached, c: Cpu<S>, n: nat) {
    forall i: nat | i < n && Run(p, cpu, h.before, c, i).Some? :: KeepsOut(p, cpu, h, Run(p, cpu, h.before, c, i).value)
  }

  lemma OneStepLater<S(!new)>(p: Platform, cpu: Processor<S>, h: Attached, c: Cpu<S>, n: nat)
    requires n > 0 && Run(p, cpu, h.before, c, n).Some? && AlwaysKeepsOut(p, cpu, h, c, n)
    ensures KeepsOut(p, cpu, h, c) && Step(p, cpu, h.before, c).Some?
    ensures var c' := Step(p, cpu, h.before, c).value;
      && Run(p, cpu, h.before, c', n - 1) == Run(p, cpu, h.before, c, n)
      && AlwaysKeepsOut(p, cpu, h, c', n - 1)
      && (StaysAway(p, cpu, h, c, n) ==> StaysAway(p, cpu, h, c', n - 1) && (n > 1 ==> c'.pc != h.target))
  {
    hide Step, KeepsOut;
    assert Run(p, cpu, h.before, c, 0) == Some(c);
    var c' := Step(p, cpu, h.before, c).value;
    assert Run(p, cpu, h.before, c, 1) == Run(p, cpu, h.before, c', 0) == Some(c');
    forall i: nat | Run(p, cpu, h.before, c', i).Some?
      ensures Run(p, cpu, h.before, c, i + 1) == Run(p, cpu, h.before, c', i)
    {
    }
  }

  /**
   * The main theorem. However long the original program runs, the hooked one, started at the same place or through
   * the trampoline, follows it until the original one enters the target again: same data, same destinations, the
   * return addresses of the prefix moved with it.
   */
  lemma {:induction false} RunSimulated<S(!new)>(p: Platform, cpu: Processor<S>, h: Attached, c: Cpu<S>, t: Cpu<S>,
                                                 n: nat) returns (m: nat)
    requires IsAttached(p, cpu, h) && X86Like(p, cpu) && Simulates(cpu, h, c, t) && t.pc != h.target
    requires Run(p, cpu, h.before, c, n).Some? && AlwaysKeepsOut(p, cpu, h, c, n) && StaysAway(p, cpu, h, c, n)
    ensures n <= m <= 2 * n && Run(p, cpu, h.after, t, m).Some?
    ensures Simulates(cpu, h, Run(p, cpu, h.before, c, n).value, Run(p, cpu, h.after, t, m).value)
    ensures n > 0 ==> Follows(cpu, h, Run(p, cpu, h.before, c, n).value, Run(p, cpu, h.after, t, m).value)
    decreases n
  {
    hide Step, IsAttached, X86Like, KeepsOut, SameBut, AlwaysKeepsOut, StaysAway, Movable;
    m := 0;
    if n > 0 {
      OneStepLater(p, cpu, h, c, n);
      var c' := Step(p, cpu, h.before, c).value;
      var first := StepSimulated(p, cpu, h, c, t);
      var t' := Run(p, cpu, h.after, t, first).value;
      var rest := 0;
      if n > 1 {
        TrampolineIsApart(p, cpu, h);
        rest := RunSimulated(p, cpu, h, c', t', n - 1);
      }
      RunAppend(p, cpu, h.after, t, first, rest);
      m := first + rest;
    }
  }

  /**
   * When the original program enters the target again, from wherever it is, the hooked one is at the target with the
   * same data and the callers that correspond, and one step later at the proxy.
   */
  lemma ReentryGoesToProxy<S(!new)>(p: Platform, cpu: Processor<S>, h: Attached, c: Cpu<S>, t: Cpu<S>, n: nat)
    returns (m: nat)
    requires IsAttached(p, cpu, h) && X86Like(p, cpu) && Simulates(cpu, h, c, t) && t.pc != h.target && n > 0
    requires Run(p, cpu, h.before, c, n).Some? && AlwaysKeepsOut(p, cpu, h, c, n) && StaysAway(p, cpu, h, c, n)
    requires Run(p, cpu, h.before, c, n).value.pc == h.target
    ensures var end, reached := Run(p, cpu, h.before, c, n).value, Run(p, cpu, h.after, t, m);
      && reached.Some? && reached.value.pc == h.target && SameBut(cpu, h, end, reached.value)
      && Run(p, cpu, h.after, t, m + 1) == Some(reached.value.(pc := h.proxy))
  {
    hide Step, IsAttached, X86Like, KeepsOut, SameBut, AlwaysKeepsOut, StaysAway, Movable;
    m := RunSimulated(p, cpu, h, c, t, n);
    var reached := Run(p, cpu, h.after, t, m).value;
    TargetGoesToProxy(p, cpu, h, reached);
    RunAppend(p, cpu, h.after, t, m, 1);
  }

  // ---------- A proxy that only passes its calls on ----------

  ghost predicate PassesOn<S>(p: Platform, cpu: Processor<S>, h: Attached, t: Cpu<S>, k: nat) {
    Run(p, cpu, h.after, t, k) == Some(t.(pc := h.trampoline))
  }

  ghost predicate GetsThrough<S>(p: Platform, cpu: Processor<S>, h: Attached, t: Cpu<S>) {
    exists k: nat :: PassesOn(p, cpu, h, t, k)
  }

  /** Whenever it is entered, the proxy gets to the trampoline with everything as it was. */
  ghost predicate IsTransparent<S(!new)>(p: Platform, cpu: Processor<S>, h: Attached) {
    forall t: Cpu<S> | t.pc == h.proxy :: GetsThrough(p, cpu, h, t)
  }

  /** A jump to the trampoline is such a proxy. */
  lemma JumpIsTransparent<S(!new)>(p: Platform, cpu: Processor<S>, h: Attached, offset: int)
    requires IsAttached(p, cpu, h) && X86Like(p, cpu)
    requires Rel32(p, h.proxy + JUMP_LENGTH, h.trampoline) == Some(offset)
    requires Mapped(h.after, h.proxy, JUMP_LENGTH) && Read(h.after, h.proxy, JUMP_LENGTH) == Jump(offset)
    ensures IsTransparent(p, cpu, h)
  {
    hide X86Like, IsAttached, GetsThrough, Rel32, Read, Mapped, Jump;
    forall t: Cpu<S> | t.pc == h.proxy
      ensures GetsThrough(p, cpu, h, t)
    {
      JumpPassesOn(p, cpu, h, t, offset);
    }
  }

  lemma JumpPassesOn<S(!new)>(p: Platform, cpu: Processor<S>, h: Attached, t: Cpu<S>, offset: int)
    requires IsAttached(p, cpu, h) && X86Like(p, cpu) && t.pc == h.proxy
    requires Rel32(p, h.proxy + JUMP_LENGTH, h.trampoline) == Some(offset)
    requires Mapped(h.after, h.proxy, JUMP_LENGTH) && Read(h.after, h.proxy, JUMP_LENGTH) == Jump(offset)
    ensures GetsThrough(p, cpu, h, t)
  {
    hide X86Like, Step, Wrap, Rel32, FromDword, Dword, Write, Read, Mapped, Redirection, TrampolineBytes, Movable;
    StepRel32(p, cpu, h.after, t, Jump(offset));
    assert Jump(offset)[1..] == Dword(offset);
    DwordRoundTrip(offset);
    Rel32Reaches(p, h.proxy + JUMP_LENGTH, h.trampoline);
    var there := t.(pc := h.trampoline);
    assert Step(p, cpu, h.after, t) == Some(there) && Run(p, cpu, h.after, there, 0) == Some(there);
    assert PassesOn(p, cpu, h, t, 1);
  }

  /** From the target, through such a proxy, to the trampoline. */
  lemma ThroughTheProxy<S(!new)>(p: Platform, cpu: Processor<S>, h: Attached, t: Cpu<S>) returns (m: nat)
    requires IsAttached(p, cpu, h) && X86Like(p, cpu) && IsTransparent(p, cpu, h) && t.pc == h.target
    ensures Run(p, cpu, h.after, t, m) == Some(t.(pc := h.trampoline))
  {
    hide Step, IsAttached, X86Like;
    TargetGoesToProxy(p, cpu, h, t);
    var entered := t.(pc := h.proxy);
    assert GetsThrough(p, cpu, h, entered);
    var k: nat :| PassesOn(p, cpu, h, entered, k);
    m := 1 + k;
  }

  /**
   * The hook is then invisible: the whole hooked program follows the original one for any number of steps, however
   * often, and from wherever, the function is called, recursively or not.
   */
  lemma {:induction false} HookIsInvisible<S(!new)>(p: Platform, cpu: Processor<S>, h: Attached, c: Cpu<S>, t: Cpu<S>,
                                                    n: nat) returns (m: nat)
    requires IsAttached(p, cpu, h) && X86Like(p, cpu) && IsTransparent(p, cpu, h) && Simulates(cpu, h, c, t)
    requires Run(p, cpu, h.before, c, n).Some? && AlwaysKeepsOut(p, cpu, h, c, n)
    ensures n <= m && Run(p, cpu, h.after, t, m).Some?
    ensures Simulates(cpu, h, Run(p, cpu, h.before, c, n).value, Run(p, cpu, h.after, t, m).value)
    decreases n
  {
    hide Step, IsAttached, IsTransparent, X86Like, KeepsOut, SameBut, AlwaysKeepsOut, Movable;
    m := 0;
    if n > 0 {
      OneStepLater(p, cpu, h, c, n);
      var c' := Step(p, cpu, h.before, c).value;
      TrampolineIsApart(p, cpu, h);
      var start, through := t, 0;
      if t.pc == h.target {
        through := ThroughTheProxy(p, cpu, h, t);
        start := t.(pc := h.trampoline);
        StartOver(cpu, h, c, t);
      }
      assert Run(p, cpu, h.after, t, through) == Some(start);
      var first := StepSimulated(p, cpu, h, c, start);
      var t' := Run(p, cpu, h.after, start, first).value;
      var rest := HookIsInvisible(p, cpu, h, c', t', n - 1);
      RunAppend(p, cpu, h.after, start, first, rest);
      RunAppend(p, cpu, h.after, t, through, first + rest);
      m := through + (first + rest);
    }
  }

  lemma StartOver<S(!new)>(cpu: Processor<S>, h: Attached, c: Cpu<S>, t: Cpu<S>)
    requires Simulates(cpu, h, c, t) && t.pc == h.target && h.trampoline != h.target
    requires !(h.trampoline <= h.target <= h.trampoline + h.length)
    ensures Simulates(cpu, h, c, t.(pc := h.trampoline))
  {
    hide Movable;
  }

  /**
   * Calling the original function through its trampoline is calling it: from the trampoline with the data and the
   * callers of a call of the target, the hooked program follows the original one, until the function is called again.
   * Once the original one is out of the middle of the prefix, the two are at the same address (after the jump back,
   * if that is where it stands), which is the target when the function is called again.
   */
  lemma TrampolineIsTheOriginal<S(!new)>(p: Platform, cpu: Processor<S>, mem: Memory, hook: Hook, proxy: int, os: Os,
                                         c: Cpu<S>, n: nat) returns (m: nat)
    requires X86Like(p, cpu) && 0 <= proxy < Modulus(p) && FreshAllocation(p, mem, os)
    requires 0 <= hook.target && hook.target + MAX_SAVED_LENGTH < Modulus(p)
    requires AttachOutcome(p, cpu.decode, mem, hook, proxy, os).status == Ok
    requires var a := AnalysisFrom(cpu.decode, mem, hook.target, 0);
             var h := Attached(mem, AttachOutcome(p, cpu.decode, mem, hook, proxy, os).mem, hook.target, proxy,
                               os.allocateAt.value, a.length, a.relocation);
      && c.pc == hook.target
      && (forall i | 0 <= i < |c.callers| :: !InMiddle(h, c.callers[i]))
      && Run(p, cpu, mem, c, n).Some? && AlwaysKeepsOut(p, cpu, h, c, n) && StaysAway(p, cpu, h, c, n)
    ensures var r := AttachOutcome(p, cpu.decode, mem, hook, proxy, os);
            var length := |r.hook.saved|;
            var end := Run(p, cpu, mem, c, n).value;
            var run := Run(p, cpu, r.mem, c.(pc := r.hook.redirected), m);
      && run.Some?
      && n <= m <= 2 * n + 1
      && run.value.data == end.data
      && |run.value.callers| == |end.callers|
      && (n > 0 && !(hook.target < end.pc < hook.target + length) ==> run.value.pc == end.pc)
  {
    hide Step, X86Like, AlwaysKeepsOut, StaysAway, Write, Read, TrampolineBytes, Redirection, Rel32, Wrap,
         FreshAllocation, Movable, AnalysisFrom;
    var r := AttachOutcome(p, cpu.decode, mem, hook, proxy, os);
    var a := AnalysisFrom(cpu.decode, mem, hook.target, 0);
    AttachAttaches(p, cpu, mem, hook, proxy, os);
    var h := Attached(mem, r.mem, hook.target, proxy, r.hook.trampoline, a.length, a.relocation);
    var t := c.(pc := r.hook.trampoline);
    TrampolineIsApart(p, cpu, h);
    m := RunSimulated(p, cpu, h, c, t, n);
    var end, reached := Run(p, cpu, mem, c, n).value, Run(p, cpu, r.mem, t, m).value;
    if end.pc == h.target + h.length && reached.pc != end.pc {
      StepBack(p, cpu, h, reached);
      RunAppend(p, cpu, h.after, t, m, 1);
      m := m + 1;
    }
  }

  /** What is left of the prefix behind the jump to the proxy is nops. */
  lemma RestIsNops<S(!new)>(p: Platform, cpu: Processor<S>, h: Attached, a: int)
    requires IsAttached(p, cpu, h) && h.target + JUMP_LENGTH <= a < h.target + h.length
    ensures a in h.after && h.after[a] == 0x90
  {
    hide Wrap, Rel32, Dword, TrampolineBytes, Movable;
  }

  /** And the target itself now goes to the proxy, with nothing else changed. */
  lemma TargetGoesToProxy<S(!new)>(p: Platform, cpu: Processor<S>, h: Attached, c: Cpu<S>)
    requires IsAttached(p, cpu, h) && X86Like(p, cpu) && c.pc == h.target
    ensures Step(p, cpu, h.after, c) == Some(c.(pc := h.proxy))
  {
    hide X86Like, IsAttached, Step, Wrap, Rel32, FromDword, Dword, Write, Read, Mapped;
    var offset := TargetHoldsJump(p, cpu, h);
    StepRel32(p, cpu, h.after, c, Jump(offset));
    assert Jump(offset)[1..] == Dword(offset);
    DwordRoundTrip(offset);
    Rel32Reaches(p, h.target + JUMP_LENGTH, h.proxy);
  }

  lemma TargetHoldsJump<S>(p: Platform, cpu: Processor<S>, h: Attached) returns (offset: int)
    requires IsAttached(p, cpu, h)
    ensures 0 <= h.proxy < Modulus(p) && Rel32(p, h.target + JUMP_LENGTH, h.proxy) == Some(offset)
    ensures IsInt32(offset) && Mapped(h.after, h.target, JUMP_LENGTH)
    ensures Read(h.after, h.target, JUMP_LENGTH) == Jump(offset)
  {
    hide Wrap, Rel32, Dword, TrampolineBytes, Movable;
    offset := Rel32(p, h.target + JUMP_LENGTH, h.proxy).value;
  }

  // ---------- A prefix that jumps into its own middle ----------

  /** A nop, and a jmp to itself. */
  const LOOP: Memory := map a | 0x1000 <= a < 0x1006 ::
    if a == 0x1000 then NOP else if a == 0x1001 then JMP else if a == 0x1002 then 0xFB else 0xFF

  lemma LoopBytes()
    ensures Mapped(LOOP, 0x1000, 6)
    ensures Read(LOOP, 0x1000, 1) == [NOP]
    ensures Read(LOOP, 0x1001, JUMP_LENGTH) == [JMP, 0xFB, 0xFF, 0xFF, 0xFF]
    ensures FromDword(Read(LOOP, 0x1001, JUMP_LENGTH)[1..]) == -5
  {
  }

  /** Where the two instructions of the loop go. */
  lemma LoopSteps(c: Cpu<int>)
    requires c.pc == 0x1000 || c.pc == 0x1001
    ensures Step(X86, SmallX86(X86), LOOP, c) == Some(c.(pc := 0x1001))
  {
    hide X86Like, FromDword, Read, LOOP;
    var cpu := SmallX86(X86);
    LoopBytes();
    SomeProcessorIsX86Like(X86);
    if c.pc == 0x1000 {
      assert Decode(cpu.decode, LOOP, 0x1000) == Some(Decoded(1, Instruction(false, true, NOP, false, 0, false)));
    } else {
      StepRel32(X86, cpu, LOOP, c, Read(LOOP, 0x1001, JUMP_LENGTH));
    }
  }

  lemma {:induction false} LoopRuns(c: Cpu<int>, n: nat)
    requires c.pc == 0x1000 || c.pc == 0x1001
    ensures Run(X86, SmallX86(X86), LOOP, c, n).Some?
    decreases n
  {
    hide Step, SmallX86, LOOP;
    if n > 0 {
      LoopSteps(c);
      LoopRuns(c.(pc := 0x1001), n - 1);
    }
  }

  lemma LoopIsAccepted()
    ensures AnalysisFrom(SmallX86(X86).decode, LOOP, 0x1000, 0) == Prefix(6, Some(1))
    ensures FreshAllocation(X86, LOOP, Os(Some(0x2000), true, true))
    ensures AttachOutcome(X86, SmallX86(X86).decode, LOOP, Hook(0x1000, [], 0, 0), 0x5000,
                          Os(Some(0x2000), true, true)).status == Ok
  {
    hide X86Like, FromDword, Dword, Read, Write, Wrap;
    var cpu := SmallX86(X86);
    LoopBytes();
    SomeProcessorIsX86Like(X86);
    assert Decode(cpu.decode, LOOP, 0x1000) == Some(Decoded(1, Instruction(false, true, NOP, false, 0, false)));
    DecodesRel32(X86, cpu, LOOP, 0x1001, Read(LOOP, 0x1001, JUMP_LENGTH));
    assert AnalysisFrom(cpu.decode, LOOP, 0x1000, 1) == Prefix(6, Some(1));
    NothingBeyondLoop();
  }

  lemma NothingBeyondLoop()
    ensures Unmapped(LOOP, 0x2000, MAX_SAVED_LENGTH + JUMP_LENGTH)
  {
  }

  lemma {:induction false} NoInstruction(mem: Memory, a: int, n: nat)
    requires 1 <= n <= MAX_INSTRUCTION_LENGTH + 1 && Mapped(mem, a, n - 1)
    requires a in mem && mem[a] != NOP && mem[a] != CALL && mem[a] != JMP
    ensures DecodeFrom(SmallX86(X86).decode, mem, a, n) == None
    decreases MAX_INSTRUCTION_LENGTH + 1 - n
  {
    if n <= MAX_INSTRUCTION_LENGTH && a + n - 1 in mem {
      assert Read(mem, a, n)[0] == mem[a];
      NoInstruction(mem, a, n + 1);
    }
  }

  lemma LoopThroughTrampoline(h: Attached, c: Cpu<int>)
    requires h.before == LOOP && h.target == 0x1000 && h.proxy == 0x5000 && h.trampoline == 0x2000
    requires h.length == 6 && h.relocation == Some(1) && IsAttached(X86, SmallX86(X86), h) && c == Cpu(0x1000, [], 0)
    ensures Run(X86, SmallX86(X86), h.after, c.(pc := 0x2000), 3) == None
  {
    hide X86Like, Wrap, Write, Read, Dword, FromDword, Rel32, TrampolineBytes, Redirection, Step, LOOP, SmallX86, Decode,
         IsAttached;
    var cpu, t := SmallX86(X86), c.(pc := 0x2000);
    SomeProcessorIsX86Like(X86);
    FirstOfLoop(h, c, t);
    var t1 := c.(pc := 0x2001);
    var t2 := SecondOfLoop(h, c.(pc := 0x1001), t1);
    InsideTheJump(h, t2);
    assert Run(X86, cpu, h.after, t2, 1) == None;
    assert Run(X86, cpu, h.after, t1, 2) == None;
  }

  lemma FirstOfLoop(h: Attached, c: Cpu<int>, t: Cpu<int>)
    requires h.before == LOOP && h.target == 0x1000 && h.trampoline == 0x2000
    requires h.length == 6 && h.relocation == Some(1) && IsAttached(X86, SmallX86(X86), h)
    requires c == Cpu(0x1000, [], 0) && t == c.(pc := 0x2000)
    ensures Step(X86, SmallX86(X86), h.after, t) == Some(c.(pc := 0x2001))
  {
    hide X86Like, Wrap, Write, Read, Dword, FromDword, Rel32, TrampolineBytes, Redirection, Step, LOOP;
    var cpu := SmallX86(X86);
    SomeProcessorIsX86Like(X86);
    LoopBytes();
    LoopSteps(c);
    assert Decode(cpu.decode, LOOP, 0x1000) == Some(Decoded(1, Instruction(false, true, NOP, false, 0, false)));
    StepMoved(X86, cpu, h, c, t, 0);
  }

  lemma SecondOfLoop(h: Attached, c: Cpu<int>, t: Cpu<int>) returns (t': Cpu<int>)
    requires h.before == LOOP && h.target == 0x1000 && h.trampoline == 0x2000
    requires h.length == 6 && h.relocation == Some(1) && IsAttached(X86, SmallX86(X86), h)
    requires c == Cpu(0x1001, [], 0) && t == c.(pc := 0x2001)
    ensures Step(X86, SmallX86(X86), h.after, t) == Some(t') && t'.pc == 0x1001
  {
    hide X86Like, Write, Read, Dword, FromDword, Rel32, TrampolineBytes, Redirection, Step, LOOP;
    var cpu := SmallX86(X86);
    SomeProcessorIsX86Like(X86);
    LoopBytes();
    assert Decode(cpu.decode, LOOP, 0x1000) == Some(Decoded(1, Instruction(false, true, NOP, false, 0, false)));
    StepRelocated(X86, cpu, h, c, t, 1);
    t' := Step(X86, cpu, h.after, t).value;
  }

  lemma InsideTheJump(h: Attached, t: Cpu<int>)
    requires h.target == 0x1000 && h.proxy == 0x5000 && IsAttached(X86, SmallX86(X86), h) && t.pc == 0x1001
    ensures Step(X86, SmallX86(X86), h.after, t) == None
  {
    hide IsAttached, SmallX86;
    var offset := TargetHoldsJump(X86, SmallX86(X86), h);
    assert offset == 0x3FFB;
    assert Read(h.after, 0x1000, JUMP_LENGTH)[1] == 0xFB;
    NoInstruction(h.after, 0x1001, 1);
  }

  /**
   * Such a prefix is accepted, but does not survive the attach: the function loops for as long as one likes, and through
   * the trampoline it jumps into the bytes of the jump to the proxy, and faults.
   */
  lemma JumpIntoMiddleFaults(n: nat)
    ensures var cpu, c := SmallX86(X86), Cpu(0x1000, [], 0);
            var hook, os := Hook(0x1000, [], 0, 0), Os(Some(0x2000), true, true);
            var r := AttachOutcome(X86, cpu.decode, LOOP, hook, 0x5000, os);
      && X86Like(X86, cpu) && FreshAllocation(X86, LOOP, os)
      && r.status == Ok
      && Run(X86, cpu, LOOP, c, n).Some?
      && Run(X86, cpu, r.mem, c.(pc := r.hook.redirected), 3) == None
  {
    hide X86Like, Wrap, Write, Read, Dword, FromDword, Rel32, TrampolineBytes, Redirection, AnalysisFrom, Step, IsAttached,
         Follows, FlowAt, EntersMiddle, LOOP, SmallX86;
    var cpu, c := SmallX86(X86), Cpu(0x1000, [], 0);
    var hook, os := Hook(0x1000, [], 0, 0), Os(Some(0x2000), true, true);
    var r := AttachOutcome(X86, cpu.decode, LOOP, hook, 0x5000, os);
    SomeProcessorIsX86Like(X86);
    LoopIsAccepted();
    AttachAttaches(X86, cpu, LOOP, hook, 0x5000, os);
    LoopRuns(c, n);
    var h := Attached(LOOP, r.mem, 0x1000, 0x5000, 0x2000, 6, Some(1));
    LoopThroughTrampoline(h, c);
  }
}
