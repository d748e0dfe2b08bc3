// The SV_PacketEvent filter stub: MakeFilterStub, AttachPacketEventFilter and DetachPacketEventFilter of
// Engine/Patches.cpp. x86 only, as the source says.

module FilterStub {
  import opened Wrappers
  import opened HookUtils
  import HookMeaning

  const STUB_LENGTH := 42
  const ARGUMENT_DWORDS := 6

  // ---------- The generated code ----------

  /** The 42 bytes of the stub, with the offset of the last jump as given. */
  function StubBytes(callOffset: int, jumpOffset: int): (r: seq<Byte>)
    requires IsInt32(callOffset) && IsInt32(jumpOffset)
    ensures |r| == STUB_LENGTH
  {
    var c, j := Dword(callOffset), Dword(jumpOffset);
    seq(4 * ARGUMENT_DWORDS, i => PushByte(i))
    + [0xE8, c[0], c[1], c[2], c[3],
       0x83, 0xC4, 0x18,
       0x85, 0xC0,
       0x75, 0x01,
       0xC3,
       0xE9, j[0], j[1], j[2], j[3]]
  }

  /** push dword [esp+24], again and again. */
  function PushByte(i: int): Byte {
    if i % 4 == 0 then 0xFF else if i % 4 == 1 then 0x74 else if i % 4 == 2 then 0x24 else 0x18
  }

  function CallOffset(stub: int, filter: int): (r: int)
    requires 0 <= filter < Modulus(X86)
    ensures IsInt32(r)
  {
    var offset := Rel32(X86, stub + 29, filter);
    if offset.Some? then offset.value else 0
  }

  function JumpOffset(stub: int, trampoline: int): (r: int)
    requires 0 <= trampoline < Modulus(X86)
    ensures IsInt32(r)
  {
    var offset := Rel32(X86, stub + STUB_LENGTH, trampoline);
    if offset.Some? then offset.value else 0
  }

  /** The i-th instruction of the stub is push dword [esp+24]. */
  ghost predicate IsPush(code: seq<Byte>, i: nat) {
    && 4 * i + 4 <= |code|
    && code[4 * i] == 0xFF && code[4 * i + 1] == 0x74 && code[4 * i + 2] == 0x24 && code[4 * i + 3] == 0x18
  }

  lemma StubPushes(callOffset: int, jumpOffset: int, i: nat)
    requires IsInt32(callOffset) && IsInt32(jumpOffset) && i < ARGUMENT_DWORDS
    ensures IsPush(StubBytes(callOffset, jumpOffset), i)
  {
    hide Dword;
  }

  method WriteDword(code: array<Byte>, p: nat, value: int)
    requires p + 4 <= code.Length && IsInt32(value)
    modifies code
    ensures var d := Dword(value);
      code[p] == d[0] && code[p + 1] == d[1] && code[p + 2] == d[2] && code[p + 3] == d[3]
    ensures forall i | 0 <= i < code.Length && !(p <= i < p + 4) :: code[i] == old(code[i])
  {
    var d := Dword(value);
    code[p], code[p + 1], code[p + 2], code[p + 3] := d[0], d[1], d[2], d[3];
  }

  method WritePushes(code: array<Byte>) returns (p: nat)
    requires code.Length == STUB_LENGTH
    modifies code
    ensures p == 4 * ARGUMENT_DWORDS && forall k | 0 <= k < ARGUMENT_DWORDS :: IsPush(code[..], k)
  {
    p := 0;
    for i := 0 to ARGUMENT_DWORDS
      invariant p == 4 * i
      invariant forall k | 0 <= k < i :: IsPush(code[..], k)
    {
      ghost var before := code[..];
      code[p], code[p + 1], code[p + 2], code[p + 3] := 0xFF, 0x74, 0x24, 0x18;
      p := p + 4;
      PushesKept(before, code[..], i);
    }
  }

  /** add esp, test, jnz, ret, and the opcode of the last jump. */
  method WriteBranch(code: array<Byte>, start: nat) returns (p: nat)
    requires start + 9 <= code.Length
    modifies code
    ensures p == start + 9
    ensures code[start] == 0x83 && code[start + 1] == 0xC4 && code[start + 2] == 0x18
    ensures code[start + 3] == 0x85 && code[start + 4] == 0xC0 && code[start + 5] == 0x75 && code[start + 6] == 0x01
    ensures code[start + 7] == 0xC3 && code[start + 8] == JMP
    ensures forall i | 0 <= i < code.Length && !(start <= i < start + 9) :: code[i] == old(code[i])
  {
    p := start;
    code[p], code[p + 1], code[p + 2] := 0x83, 0xC4, 0x18;
    p := p + 3;
    code[p], code[p + 1] := 0x85, 0xC0;
    p := p + 2;
    code[p], code[p + 1] := 0x75, 0x01;
    p := p + 2;
    code[p] := 0xC3;
    p := p + 1;
    code[p] := JMP;
    p := p + 1;
  }

  /** The writes through the advancing pointer. The last offset waits for the trampoline. */
  method FillFilterStub(code: array<Byte>, stub: int, filter: int)
    requires code.Length == STUB_LENGTH && 0 <= filter < Modulus(X86)
    modifies code
    ensures code[..] == StubBytes(CallOffset(stub, filter), 0)
  {
    hide Dword, CallOffset, StubBytes, IsPush;
    var p := WritePushes(code);
    ghost var pushes := code[..];
    code[p] := CALL;
    p := p + 1;
    WriteDword(code, p, CallOffset(stub, filter));
    p := p + 4;
    p := WriteBranch(code, p);
    WriteDword(code, p, 0);
    PushesKept(pushes, code[..], ARGUMENT_DWORDS);
    StubIs(code[..], CallOffset(stub, filter), 0);
  }

  lemma PushesKept(before: seq<Byte>, after: seq<Byte>, n: nat)
    requires 4 * n <= |before| == |after|
    requires forall k | 0 <= k < n :: IsPush(before, k)
    requires forall x | 0 <= x < 4 * n :: after[x] == before[x]
    ensures forall k | 0 <= k < n :: IsPush(after, k)
  {
    forall k | 0 <= k < n
      ensures IsPush(after, k)
    {
      assert IsPush(before, k);
    }
  }

  lemma StubIs(code: seq<Byte>, callOffset: int, jumpOffset: int)
    requires |code| == STUB_LENGTH && IsInt32(callOffset) && IsInt32(jumpOffset)
    requires forall k | 0 <= k < ARGUMENT_DWORDS :: IsPush(code, k)
    requires var c := Dword(callOffset);
      code[24] == CALL && code[25] == c[0] && code[26] == c[1] && code[27] == c[2] && code[28] == c[3]
    requires code[29] == 0x83 && code[30] == 0xC4 && code[31] == 0x18 && code[32] == 0x85 && code[33] == 0xC0
    requires code[34] == 0x75 && code[35] == 0x01 && code[36] == 0xC3 && code[37] == JMP
    requires var j := Dword(jumpOffset); code[38] == j[0] && code[39] == j[1] && code[40] == j[2] && code[41] == j[3]
    ensures code == StubBytes(callOffset, jumpOffset)
  {
    hide Dword;
    forall x | 0 <= x < 4 * ARGUMENT_DWORDS
      ensures code[x] == PushByte(x)
    {
      assert IsPush(code, x / 4);
    }
  }

  // ---------- The processor, for the opcodes of the stub ----------

  /** The stack is a map from the addresses of its dwords; zf is the zero flag. */
  datatype Machine = Machine(eip: int, esp: int, eax: int, zf: bool, stack: map<int, int>)

  function Signed8(b: Byte): int { if b < 0x80 then b else b - 0x100 }

  function Push(m: Machine, value: int): Option<Machine> {
    var top := Wrap(X86, m.esp - 4);
    if top in m.stack then Some(m.(esp := top, stack := m.stack[top := value])) else None
  }

  /** One instruction of the code loaded at `base`; none on a fault or on another opcode. */
  function Step(code: seq<Byte>, base: int, m: Machine): Option<Machine> {
    var o := m.eip - base;
    if o < 0 || |code| <= o then None
    else if code[o] == 0xFF && o + 4 <= |code| && code[o + 1] == 0x74 && code[o + 2] == 0x24 then
      // push dword [esp+disp8]: the address is computed before esp moves
      var a := Wrap(X86, m.esp + Signed8(code[o + 3]));
      if a !in m.stack then None else Push(m.(eip := Wrap(X86, m.eip + 4)), m.stack[a])
    else if code[o] == CALL && o + 5 <= |code| then
      var next := Wrap(X86, m.eip + 5);
      Push(m.(eip := Wrap(X86, next + FromDword(code[o + 1..o + 5]))), next)
    else if code[o] == 0x83 && o + 3 <= |code| && code[o + 1] == 0xC4 then
      var esp := Wrap(X86, m.esp + Signed8(code[o + 2]));
      Some(m.(eip := Wrap(X86, m.eip + 3), esp := esp, zf := esp == 0))
    else if code[o] == 0x85 && o + 2 <= |code| && code[o + 1] == 0xC0 then
      Some(m.(eip := Wrap(X86, m.eip + 2), zf := m.eax == 0))
    else if code[o] == 0x75 && o + 2 <= |code| then
      Some(m.(eip := Wrap(X86, m.eip + 2 + if m.zf then 0 else Signed8(code[o + 1]))))
    else if code[o] == 0xC3 then
      if m.esp !in m.stack then None else Some(m.(eip := m.stack[m.esp], esp := Wrap(X86, m.esp + 4)))
    else if code[o] == JMP && o + 5 <= |code| then
      Some(m.(eip := Wrap(X86, m.eip + 5 + FromDword(code[o + 1..o + 5]))))
    else None
  }

  function Run(code: seq<Byte>, base: int, m: Machine, n: nat): Option<Machine>
    decreases n, m
  {
    if n == 0 then Some(m)
    else
      match Step(code, base, m)
      case None => None
      case Some(m') => Run(code, base, m', n - 1)
  }

  /** Room for the stub to run: 28 bytes below esp, and the return address and the arguments from esp up. */
  ghost predicate HasRoom(m: Machine) {
    && 28 <= m.esp && m.esp + 28 <= Modulus(X86)
    && forall k | -7 <= k < 7 :: Slot(m.esp, k) in m.stack
  }

  /** The address of the k-th dword from the top. */
  function Slot(esp: int, k: int): int { esp + 4 * k }

  ghost predicate Loaded(stub: int) { 0 <= stub && stub + STUB_LENGTH < Modulus(X86) }

  /**
   * What cdecl lets the filter do: it returns to its caller, and may have written anywhere below its own arguments
   * and over them, nowhere above.
   */
  ghost predicate FilterReturned(entry: Machine, r: Machine) {
    && entry.esp in entry.stack
    && r.eip == entry.stack[entry.esp]
    && r.esp == entry.esp + 4
    && r.stack.Keys == entry.stack.Keys
    && forall a | a in entry.stack && entry.esp + 4 + 4 * ARGUMENT_DWORDS <= a :: r.stack[a] == entry.stack[a]
  }

  // ---------- What the stub does ----------

  lemma Wraps(x: int)
    requires 0 <= x < Modulus(X86)
    ensures Wrap(X86, x) == x
  {
  }

  /** One push copies the dword 24 bytes above the top. */
  lemma PushStep(code: seq<Byte>, base: int, m: Machine, i: nat)
    requires IsPush(code, i)
    requires 0 <= base && base + |code| < Modulus(X86) && m.eip == base + 4 * i
    requires 4 <= m.esp && m.esp + 24 < Modulus(X86) && m.esp + 24 in m.stack && m.esp - 4 in m.stack
    ensures Step(code, base, m)
         == Some(m.(eip := m.eip + 4, esp := m.esp - 4, stack := m.stack[m.esp - 4 := m.stack[m.esp + 24]]))
  {
  }

  /** After k pushes: the last k argument dwords are copied, in order. */
  ghost predicate Pushed(m: Machine, r: Machine, stub: int, k: nat) {
    && r.eip == stub + 4 * k
    && r.esp == m.esp - 4 * k
    && r.stack.Keys == m.stack.Keys
    && (forall a | a in m.stack && (m.esp <= a || a < r.esp) :: r.stack[a] == m.stack[a])
    && (forall i | 6 - k < i <= 6 :: Copied(m, r.stack, i))
  }

  /** Argument i of the engine, at slot i, is also at slot i of the stack as the filter finds it, 28 bytes below. */
  ghost predicate Copied(m: Machine, stack: map<int, int>, i: nat) {
    && Slot(m.esp - 28, i) in stack && Slot(m.esp, i) in m.stack
    && stack[Slot(m.esp - 28, i)] == m.stack[Slot(m.esp, i)]
  }

  lemma {:induction false} PushesCopyArguments(code: seq<Byte>, stub: int, m: Machine, r: Machine, k: nat)
    requires |code| == STUB_LENGTH && Loaded(stub) && HasRoom(m)
    requires forall i | 0 <= i < ARGUMENT_DWORDS :: IsPush(code, i)
    requires k <= ARGUMENT_DWORDS && Pushed(m, r, stub, k)
    ensures var end := Run(code, stub, r, ARGUMENT_DWORDS - k);
      end.Some? && Pushed(m, end.value, stub, ARGUMENT_DWORDS)
    decreases ARGUMENT_DWORDS - k
  {
    hide Wrap, Step;
    if k < ARGUMENT_DWORDS {
      var i := 6 - k;
      assert r.esp + 24 == Slot(m.esp, i) && r.esp - 4 == Slot(m.esp - 28, i) == Slot(m.esp, i - 7);
      assert IsPush(code, k);
      PushStep(code, stub, r, k);
      var r' := Step(code, stub, r).value;
      forall j | 6 - (k + 1) < j <= 6
        ensures Copied(m, r'.stack, j)
      {
        assert j != i ==> Copied(m, r.stack, j);
      }
      assert Pushed(m, r', stub, k + 1);
      PushesCopyArguments(code, stub, m, r', k + 1);
    }
  }

  /** The state at the entry of the filter. */
  ghost predicate FilterEntered(stub: int, filter: int, m: Machine, entry: Machine) {
    && entry.eip == filter
    && entry.esp == m.esp - 28
    && entry.stack.Keys == m.stack.Keys
    && entry.esp in entry.stack && entry.stack[entry.esp] == stub + 29
    && (forall i | 1 <= i <= ARGUMENT_DWORDS :: Copied(m, entry.stack, i))
    && (forall a | a in m.stack && m.esp <= a :: entry.stack[a] == m.stack[a])
  }

  /**
   * The first half: seven instructions after its entry, the stub is at the entry of the filter, whose arguments are
   * an exact copy of the six dwords, below the return address and the arguments of the engine, which are untouched.
   */
  lemma StubCallsFilter(stub: int, filter: int, trampoline: int, m: Machine) returns (entry: Machine)
    requires Loaded(stub) && HasRoom(m) && m.eip == stub
    requires 0 <= filter < Modulus(X86) && 0 <= trampoline < Modulus(X86)
    ensures Run(StubBytes(CallOffset(stub, filter), JumpOffset(stub, trampoline)), stub, m, 7) == Some(entry)
    ensures FilterEntered(stub, filter, m, entry)
  {
    hide Wrap, Rel32, Dword, FromDword, Step, Copied, HasRoom;
    var code := StubBytes(CallOffset(stub, filter), JumpOffset(stub, trampoline));
    assert Pushed(m, m, stub, 0);
    forall i | 0 <= i < ARGUMENT_DWORDS
      ensures IsPush(code, i)
    {
      StubPushes(CallOffset(stub, filter), JumpOffset(stub, trampoline), i);
    }
    PushesCopyArguments(code, stub, m, m, 0);
    var pushed := Run(code, stub, m, 6).value;
    RoomBelow(m);
    CallStep(code, stub, filter, trampoline, pushed);
    RunOneMore(code, stub, m, 6);
    entry := Step(code, stub, pushed).value;
    forall i | 1 <= i <= ARGUMENT_DWORDS
      ensures Copied(m, entry.stack, i)
    {
      CopiedAbove(m, pushed.stack, i, stub + 29);
    }
  }

  lemma RoomBelow(m: Machine)
    requires HasRoom(m)
    ensures 28 <= m.esp < Modulus(X86) && m.esp - 28 in m.stack && m.esp in m.stack
  {
    assert Slot(m.esp, -7) in m.stack && Slot(m.esp, 0) in m.stack;
  }

  lemma CopiedAbove(m: Machine, stack: map<int, int>, i: nat, value: int)
    requires 0 < i && Copied(m, stack, i)
    ensures Copied(m, stack[m.esp - 28 := value], i)
  {
  }

  lemma CallStep(code: seq<Byte>, stub: int, filter: int, trampoline: int, r: Machine)
    requires Loaded(stub) && 0 <= filter < Modulus(X86) && 0 <= trampoline < Modulus(X86)
    requires code == StubBytes(CallOffset(stub, filter), JumpOffset(stub, trampoline))
    requires r.eip == stub + 24 && 4 <= r.esp < Modulus(X86) && r.esp - 4 in r.stack
    ensures Step(code, stub, r)
         == Some(r.(eip := filter, esp := r.esp - 4, stack := r.stack[r.esp - 4 := stub + 29]))
  {
    hide Rel32, Dword, FromDword, Wrap;
    var offset := CallOffset(stub, filter);
    assert code[25..29] == Dword(offset);
    Wraps(stub + 29);
    Wraps(r.esp - 4);
    DwordRoundTrip(offset);
    Rel32Reaches(X86, stub + 29, filter);
  }

  lemma {:induction false} RunOneMore(code: seq<Byte>, base: int, m: Machine, n: nat)
    requires Run(code, base, m, n).Some?
    ensures Run(code, base, m, n + 1) == Step(code, base, Run(code, base, m, n).value)
    decreases n
  {
    hide Step;
    if n > 0 {
      RunOneMore(code, base, Step(code, base, m).value, n - 1);
    } else {
      assert Run(code, base, m, 1) == match Step(code, base, m) case None => None case Some(m') => Run(code, base, m', 0);
    }
  }

  /**
   * The second half, whatever the filter did with its own copy: when it answers 0, control is back in the caller of the
   * engine's function, as if that had returned at once; otherwise it enters the trampoline with the stack of the call:
   * same esp, same return address, same arguments, and nothing of the stub left on it.
   */
  lemma StubObeysFilter(stub: int, filter: int, trampoline: int, m: Machine, entry: Machine, r: Machine)
    returns (end: Machine)
    requires Loaded(stub) && HasRoom(m)
    requires 0 <= filter < Modulus(X86) && 0 <= trampoline < Modulus(X86)
    requires FilterEntered(stub, filter, m, entry) && FilterReturned(entry, r)
    ensures Run(StubBytes(CallOffset(stub, filter), JumpOffset(stub, trampoline)), stub, r, 4) == Some(end)
    ensures m.esp in m.stack
    ensures end.eip == if r.eax == 0 then m.stack[m.esp] else trampoline
    ensures end.esp == if r.eax == 0 then m.esp + 4 else m.esp
    ensures end.eax == r.eax
    ensures end.stack.Keys == m.stack.Keys
    ensures forall a | a in m.stack && m.esp <= a :: end.stack[a] == m.stack[a]
  {
    hide Wrap, Rel32, Dword, FromDword, Step, StubBytes, HasRoom;
    RoomBelow(m);
    RoomAbove(m);
    var code := StubBytes(CallOffset(stub, filter), JumpOffset(stub, trampoline));
    AddStep(code, stub, filter, trampoline, r);
    var r1 := Step(code, stub, r).value;
    TestStep(code, stub, filter, trampoline, r1);
    var r2 := Step(code, stub, r1).value;
    JnzStep(code, stub, filter, trampoline, r2);
    var r3 := Step(code, stub, r2).value;
    if r.eax == 0 {
      RetStep(code, stub, filter, trampoline, r3);
    } else {
      JumpStep(code, stub, filter, trampoline, r3);
    }
    RunFour(code, stub, r, r1, r2, r3);
    end := Step(code, stub, r3).value;
  }

  lemma RoomAbove(m: Machine)
    requires HasRoom(m)
    ensures m.esp + 4 < Modulus(X86)
  {
  }

  lemma AddStep(code: seq<Byte>, stub: int, filter: int, trampoline: int, r: Machine)
    requires Loaded(stub) && 0 <= filter < Modulus(X86) && 0 <= trampoline < Modulus(X86)
    requires code == StubBytes(CallOffset(stub, filter), JumpOffset(stub, trampoline))
    requires r.eip == stub + 29 && 0 < r.esp + 24 < Modulus(X86)
    ensures Step(code, stub, r) == Some(r.(eip := stub + 32, esp := r.esp + 24, zf := false))
  {
    hide Rel32, Dword, FromDword;
  }

  lemma TestStep(code: seq<Byte>, stub: int, filter: int, trampoline: int, r: Machine)
    requires Loaded(stub) && 0 <= filter < Modulus(X86) && 0 <= trampoline < Modulus(X86)
    requires code == StubBytes(CallOffset(stub, filter), JumpOffset(stub, trampoline))
    requires r.eip == stub + 32
    ensures Step(code, stub, r) == Some(r.(eip := stub + 34, zf := r.eax == 0))
  {
    hide Rel32, Dword, FromDword;
  }

  lemma JnzStep(code: seq<Byte>, stub: int, filter: int, trampoline: int, r: Machine)
    requires Loaded(stub) && 0 <= filter < Modulus(X86) && 0 <= trampoline < Modulus(X86)
    requires code == StubBytes(CallOffset(stub, filter), JumpOffset(stub, trampoline))
    requires r.eip == stub + 34
    ensures Step(code, stub, r) == Some(r.(eip := if r.zf then stub + 36 else stub + 37))
  {
    hide Rel32, Dword, FromDword;
  }

  lemma RetStep(code: seq<Byte>, stub: int, filter: int, trampoline: int, r: Machine)
    requires Loaded(stub) && 0 <= filter < Modulus(X86) && 0 <= trampoline < Modulus(X86)
    requires code == StubBytes(CallOffset(stub, filter), JumpOffset(stub, trampoline))
    requires r.eip == stub + 36 && 0 <= r.esp && r.esp + 4 < Modulus(X86) && r.esp in r.stack
    ensures Step(code, stub, r) == Some(r.(eip := r.stack[r.esp], esp := r.esp + 4))
  {
    hide Rel32, Dword, FromDword;
  }

  lemma JumpStep(code: seq<Byte>, stub: int, filter: int, trampoline: int, r: Machine)
    requires Loaded(stub) && 0 <= filter < Modulus(X86) && 0 <= trampoline < Modulus(X86)
    requires code == StubBytes(CallOffset(stub, filter), JumpOffset(stub, trampoline))
    requires r.eip == stub + 37
    ensures Step(code, stub, r) == Some(r.(eip := trampoline))
  {
    hide Rel32, Dword, FromDword, Wrap;
    var offset := JumpOffset(stub, trampoline);
    assert code[38..42] == Dword(offset);
    DwordRoundTrip(offset);
    Rel32Reaches(X86, stub + STUB_LENGTH, trampoline);
  }

  lemma RunFour(code: seq<Byte>, base: int, r: Machine, r1: Machine, r2: Machine, r3: Machine)
    requires Step(code, base, r) == Some(r1) && Step(code, base, r1) == Some(r2) && Step(code, base, r2) == Some(r3)
    ensures Run(code, base, r, 4) == Step(code, base, r3)
  {
    hide Step;
    assert Run(code, base, r3, 1) == match Step(code, base, r3) case None => None case Some(m') => Run(code, base, m', 0);
    assert Run(code, base, r2, 2) == Run(code, base, r3, 1);
    assert Run(code, base, r1, 3) == Run(code, base, r2, 2);
  }

  // ---------- Attaching and detaching the filter ----------

  /** What the system may give for the stub: room of its own, away from the function to hook. */
  ghost predicate FreshStub(mem: Memory, target: int, allocateAt: Option<int>) {
    allocateAt.Some? ==>
      && 0 < allocateAt.value && Loaded(allocateAt.value)
      && Unmapped(mem, allocateAt.value, STUB_LENGTH)
      && (target + MAX_SAVED_LENGTH <= allocateAt.value || allocateAt.value + STUB_LENGTH <= target)
  }

  /** And for the trampoline, once the stub is there. */
  ghost predicate ApartFromStub(os: Os, stub: Option<int>) {
    os.allocateAt.Some? && stub.Some? ==>
      || stub.value + STUB_LENGTH <= os.allocateAt.value
      || os.allocateAt.value + MAX_SAVED_LENGTH + JUMP_LENGTH <= stub.value
  }

  /** 0 when the system gives no memory. */
  method MakeFilterStub(memory: AddressSpace, filter: int, allocateAt: Option<int>) returns (stub: int)
    requires 0 <= filter < Modulus(X86) && (allocateAt.Some? ==> 0 < allocateAt.value)
    modifies memory
    ensures stub == if allocateAt.Some? then allocateAt.value else 0
    ensures memory.bytes ==
      if allocateAt.Some? then Write(old(memory.bytes), stub, StubBytes(CallOffset(stub, filter), 0))
      else old(memory.bytes)
  {
    if allocateAt.None? {
      return 0;
    }
    stub := allocateAt.value;
    var code := new Byte[STUB_LENGTH](_ => 0);
    FillFilterStub(code, stub, filter);
    memory.bytes := Write(memory.bytes, stub, code[..]);
  }

  /** The last four bytes of the stub, once there is a trampoline to jump to. */
  method WriteJumpToTrampoline(memory: AddressSpace, stub: int, trampoline: int, ghost callOffset: int)
    requires 0 <= trampoline < Modulus(X86) && IsInt32(callOffset)
    requires Mapped(memory.bytes, stub, STUB_LENGTH)
    requires Read(memory.bytes, stub, STUB_LENGTH) == StubBytes(callOffset, 0)
    modifies memory
    ensures memory.bytes == Write(old(memory.bytes), stub, StubBytes(callOffset, JumpOffset(stub, trampoline)))
  {
    LastOffset(memory.bytes, stub, callOffset, JumpOffset(stub, trampoline));
    memory.bytes := Write(memory.bytes, stub + (STUB_LENGTH - 4), Dword(JumpOffset(stub, trampoline)));
  }

  lemma LastOffset(mem: Memory, stub: int, callOffset: int, jumpOffset: int)
    requires IsInt32(callOffset) && IsInt32(jumpOffset) && Mapped(mem, stub, STUB_LENGTH)
    requires Read(mem, stub, STUB_LENGTH) == StubBytes(callOffset, 0)
    ensures Write(mem, stub + (STUB_LENGTH - 4), Dword(jumpOffset)) == Write(mem, stub, StubBytes(callOffset, jumpOffset))
  {
    hide Write, Dword, StubBytes;
    var part, whole := Write(mem, stub + (STUB_LENGTH - 4), Dword(jumpOffset)), StubBytes(callOffset, jumpOffset);
    OnlyTheJumpDiffers(callOffset, jumpOffset);
    forall a
      ensures a in part <==> a in Write(mem, stub, whole)
      ensures a in part ==> part[a] == Write(mem, stub, whole)[a]
    {
      WriteAt(mem, stub + (STUB_LENGTH - 4), Dword(jumpOffset), a);
      WriteAt(mem, stub, whole, a);
      if Within(a, stub, STUB_LENGTH) {
        assert Read(mem, stub, STUB_LENGTH)[a - stub] == mem[a];
      }
    }
  }

  lemma OnlyTheJumpDiffers(callOffset: int, jumpOffset: int)
    requires IsInt32(callOffset) && IsInt32(jumpOffset)
    ensures forall i | 0 <= i < STUB_LENGTH - 4 ::
      StubBytes(callOffset, jumpOffset)[i] == StubBytes(callOffset, 0)[i]
    ensures forall i | STUB_LENGTH - 4 <= i < STUB_LENGTH ::
      StubBytes(callOffset, jumpOffset)[i] == Dword(jumpOffset)[i - (STUB_LENGTH - 4)]
  {
    hide Dword;
  }

  /** The hook of SV_PacketEvent and its stub, whose address is 0 when the filter is not attached. */
  class PacketEventFilter {
    const hook: HookEntry
    var stub: int

    constructor (target: int)
      ensures hook.Valid() && hook.Value() == Hook(target, [], 0, 0) && stub == 0 && fresh(hook) && fresh(hook.savedOpcodes)
    {
      hook := new HookEntry(target);
      stub := 0;
    }

    /**
     * Any status but Ok is fatal to the server. After Ok, the function jumps to the stub, and the stub is whole: its
     * last jump is to the trampoline.
     */
    method Attach(d: Decoder, memory: AddressSpace, filter: int, allocateAt: Option<int>, os: Os)
      returns (status: Status)
      requires hook.Valid() && (hook.trampoline == 0 ==> hook.savedOpcodeLength == 0) && 0 <= filter < Modulus(X86)
      requires FreshStub(memory.bytes, hook.originalFunctionAddr, allocateAt)
      requires FreshAllocation(X86, memory.bytes, os) && ApartFromStub(os, allocateAt)
      modifies this, memory, hook, hook.savedOpcodes
      ensures hook.Valid() && stub == (if allocateAt.Some? then allocateAt.value else 0)
      ensures allocateAt.None? ==>
        status == AllocationFailed && memory.bytes == old(memory.bytes) && hook.Value() == old(hook.Value())
      ensures allocateAt.Some? ==>
        var r := AttachOutcome(X86, d, Write(old(memory.bytes), stub, StubBytes(CallOffset(stub, filter), 0)),
                               old(hook.Value()), stub, os);
        && status == r.status && hook.Value() == r.hook
        && (status != Ok ==> memory.bytes == r.mem)
        && (status == Ok ==>
              0 <= hook.trampoline < Modulus(X86)
              && memory.bytes == Write(r.mem, stub, StubBytes(CallOffset(stub, filter), JumpOffset(stub, hook.trampoline))))
    {
      hide StubBytes, CallOffset, JumpOffset, Write, Read, AttachOutcome;
      stub := MakeFilterStub(memory, filter, allocateAt);
      if stub == 0 {
        return AllocationFailed;
      }
      ghost var mem, value := memory.bytes, hook.Value();
      ghost var bytes := StubBytes(CallOffset(stub, filter), 0);
      StillFresh(old(memory.bytes), bytes, stub, os);
      status := HookUtils.Attach(X86, d, memory, hook, stub, os);
      if status == Ok {
        StubIsKept(d, old(memory.bytes), bytes, stub, value, os);
        WriteJumpToTrampoline(memory, stub, hook.redirectedFunction, CallOffset(stub, filter));
      }
    }

    /** The stub is released whatever the detach answers. */
    method Detach(memory: AddressSpace, os: Os, releasesStub: bool)
      requires hook.Valid()
      modifies this, memory, hook
      ensures hook.Valid() && stub == 0
      ensures old(stub) == 0 ==> memory.bytes == old(memory.bytes) && hook.Value() == old(hook.Value())
      ensures old(stub) != 0 ==>
        var r := DetachFilterOutcome(old(memory.bytes), old(hook.Value()), old(stub), os, releasesStub);
        memory.bytes == r.mem && hook.Value() == r.hook
    {
      if stub == 0 {
        return;
      }
      var status := HookUtils.Detach(memory, hook, os);
      if releasesStub {
        memory.bytes := Unmap(memory.bytes, stub, STUB_LENGTH);
      }
      stub := 0;
    }
  }

  lemma StillFresh(mem: Memory, bytes: seq<Byte>, stub: int, os: Os)
    requires |bytes| == STUB_LENGTH && FreshAllocation(X86, mem, os) && ApartFromStub(os, Some(stub))
    ensures FreshAllocation(X86, Write(mem, stub, bytes), os)
  {
  }

  /** Neither the trampoline nor the jump to the stub is written over the stub. */
  lemma StubIsKept(d: Decoder, mem: Memory, bytes: seq<Byte>, stub: int, hook: Hook, os: Os)
    requires |bytes| == STUB_LENGTH && FreshStub(mem, hook.target, Some(stub))
    requires FreshAllocation(X86, mem, os) && ApartFromStub(os, Some(stub))
    requires AttachOutcome(X86, d, Write(mem, stub, bytes), hook, stub, os).status == Ok
    ensures var r := AttachOutcome(X86, d, Write(mem, stub, bytes), hook, stub, os);
      && 0 <= r.hook.trampoline < Modulus(X86) && r.hook.redirected == r.hook.trampoline
      && Mapped(r.mem, stub, STUB_LENGTH) && Read(r.mem, stub, STUB_LENGTH) == bytes
  {
    hide AttachOutcome, Write, AnalysisFrom, TrampolineBytes, Rel32, Redirection;
    var length, relocation, trampoline, jump := SuccessIs(X86, d, Write(mem, stub, bytes), hook, stub, os);
    var r := AttachOutcome(X86, d, Write(mem, stub, bytes), hook, stub, os);
    forall a | stub <= a < stub + STUB_LENGTH
      ensures a in r.mem && r.mem[a] == bytes[a - stub]
    {
      WriteAt(mem, stub, bytes, a);
      WriteAt(Write(mem, stub, bytes), os.allocateAt.value, trampoline, a);
      WriteAt(Write(Write(mem, stub, bytes), os.allocateAt.value, trampoline), hook.target, Redirection(jump, length), a);
    }
  }

  /** DetachPacketEventFilter, on values. */
  function DetachFilterOutcome(mem: Memory, hook: Hook, stub: int, os: Os, releasesStub: bool): Attempt {
    var r := DetachOutcome(mem, hook, os);
    r.(mem := if releasesStub then Unmap(r.mem, stub, STUB_LENGTH) else r.mem)
  }

  /**
   * Once the stub is released, the entry of the engine's function is its own code again if and only if the code was
   * writable. Otherwise it keeps a jump to the stub, and the stub is gone.
   */
  lemma StubReleasedUnderHook(mem: Memory, hook: Hook, stub: int, os: Os, jumpOffset: int)
    requires hook.trampoline != 0 && JUMP_LENGTH <= |hook.saved| <= MAX_SAVED_LENGTH && IsInt32(jumpOffset)
    requires Mapped(mem, hook.target, |hook.saved|) && Mapped(mem, stub, STUB_LENGTH)
    requires Read(mem, hook.target, |hook.saved|) == Redirection(jumpOffset, |hook.saved|) != hook.saved
    requires hook.target + MAX_SAVED_LENGTH <= stub || stub + STUB_LENGTH <= hook.target
    requires hook.target + MAX_SAVED_LENGTH <= hook.trampoline ||
             hook.trampoline + MAX_SAVED_LENGTH + JUMP_LENGTH <= hook.target
    ensures var r := DetachFilterOutcome(mem, hook, stub, os, true);
      && stub !in r.mem
      && Mapped(r.mem, hook.target, |hook.saved|)
      && (Read(r.mem, hook.target, |hook.saved|) == hook.saved <==> os.writable)
      && (Read(r.mem, hook.target, |hook.saved|) == Redirection(jumpOffset, |hook.saved|) <==> !os.writable)
  {
    hide Redirection;
    var r := DetachFilterOutcome(mem, hook, stub, os, true);
    assert Read(r.mem, hook.target, |hook.saved|)
        == if os.writable then hook.saved else Read(mem, hook.target, |hook.saved|);
  }

  // ---------- What a call of the function then does ----------

  /** A larger memory with the same bytes runs as far as the smaller one does. */
  lemma {:induction false} LargerMemoryRuns<S(!new)>(cpu: HookMeaning.Processor<S>, mem: Memory, more: Memory,
                                                     c: HookMeaning.Cpu<S>, n: nat)
    requires forall a | a in mem :: a in more && more[a] == mem[a]
    requires HookMeaning.Run(X86, cpu, mem, c, n).Some?
    ensures HookMeaning.Run(X86, cpu, more, c, n) == HookMeaning.Run(X86, cpu, mem, c, n)
    decreases n
  {
    hide Decode, Wrap;
    if n > 0 {
      var decoded := Decode(cpu.decode, mem, c.pc).value;
      assert Read(more, c.pc, decoded.length) == Read(mem, c.pc, decoded.length);
      DecodeLocal(cpu.decode, mem, c.pc, more, c.pc);
      LargerMemoryRuns(cpu, mem, more, HookMeaning.Step(X86, cpu, mem, c).value, n - 1);
    }
  }

  /** The world of an attached filter: the memory from before the hook has the stub. */
  ghost predicate FilterAttached<S>(cpu: HookMeaning.Processor<S>, mem: Memory, hook: Hook, stub: int, os: Os) {
    && 0 < stub && Loaded(stub) && Mapped(mem, stub, STUB_LENGTH)
    && 0 < hook.target && hook.target + MAX_SAVED_LENGTH < Modulus(X86)
    && (hook.target + MAX_SAVED_LENGTH <= stub || stub + STUB_LENGTH <= hook.target)
    && FreshAllocation(X86, mem, os)
    && AttachOutcome(X86, cpu.decode, mem, hook, stub, os).status == Ok
  }

  /**
   * A packet after the detach. If two instructions of the original function run without the stub, they run again if
   * and only if the code was writable when the filter was detached. If it was not, the function jumps to the stub and
   * faults there.
   */
  lemma ReleasedStubFaults<S(!new)>(cpu: HookMeaning.Processor<S>, mem: Memory, hook: Hook, stub: int, code: seq<Byte>,
                                    os: Os, os': Os, c: HookMeaning.Cpu<S>)
    requires HookMeaning.X86Like(X86, cpu) && FilterAttached(cpu, mem, hook, stub, os)
    requires |code| == STUB_LENGTH && c.pc == hook.target
    requires HookMeaning.Run(X86, cpu, Unmap(mem, stub, STUB_LENGTH), c, 2).Some?
    ensures var a := AttachOutcome(X86, cpu.decode, mem, hook, stub, os);
            var r := DetachFilterOutcome(Write(a.mem, stub, code), a.hook, stub, os', true);
      && (HookMeaning.Run(X86, cpu, r.mem, c, 2) == None <==> !os'.writable)
      && (!os'.writable ==> HookMeaning.Step(X86, cpu, r.mem, c) == Some(c.(pc := stub)))
      && (os'.writable ==>
            HookMeaning.Run(X86, cpu, r.mem, c, 2)
            == HookMeaning.Run(X86, cpu, Unmap(mem, stub, STUB_LENGTH), c, 2))
  {
    hide HookMeaning.X86Like, HookMeaning.Step, AttachOutcome, Write, Unmap, DetachFilterOutcome;
    var a := AttachOutcome(X86, cpu.decode, mem, hook, stub, os);
    var r := DetachFilterOutcome(Write(a.mem, stub, code), a.hook, stub, os', true);
    if os'.writable {
      OriginalIsBack(cpu, mem, hook, stub, code, os, os');
      LargerMemoryRuns(cpu, Unmap(mem, stub, STUB_LENGTH), r.mem, c, 2);
    } else {
      JumpsToReleasedStub(cpu, mem, hook, stub, code, os, os', c);
      NoCodeFaults(cpu, r.mem, c.(pc := stub));
    }
  }

  lemma NoCodeFaults<S>(cpu: HookMeaning.Processor<S>, mem: Memory, c: HookMeaning.Cpu<S>)
    requires Decode(cpu.decode, mem, c.pc) == None
    ensures HookMeaning.Run(X86, cpu, mem, c, 1) == None
  {
  }

  lemma OriginalIsBack<S(!new)>(cpu: HookMeaning.Processor<S>, mem: Memory, hook: Hook, stub: int, code: seq<Byte>,
                                os: Os, os': Os)
    requires FilterAttached(cpu, mem, hook, stub, os) && |code| == STUB_LENGTH && os'.writable
    ensures var a := AttachOutcome(X86, cpu.decode, mem, hook, stub, os);
            var r := DetachFilterOutcome(Write(a.mem, stub, code), a.hook, stub, os', true);
            var without := Unmap(mem, stub, STUB_LENGTH);
      forall x | x in without :: x in r.mem && r.mem[x] == without[x]
  {
    hide AttachOutcome, Write, Unmap, AnalysisFrom, TrampolineBytes, Rel32, Redirection;
    var length, relocation, bytes, jump := SuccessIs(X86, cpu.decode, mem, hook, stub, os);
    var a := AttachOutcome(X86, cpu.decode, mem, hook, stub, os);
    var t := os.allocateAt.value;
    var written := Write(mem, t, bytes);
    var filtered := Write(a.mem, stub, code);
    var restored := Write(filtered, hook.target, a.hook.saved);
    var released := Unmap(restored, t, length + JUMP_LENGTH);
    forall x | x in Unmap(mem, stub, STUB_LENGTH)
      ensures var r := DetachFilterOutcome(filtered, a.hook, stub, os', true);
              x in r.mem && r.mem[x] == Unmap(mem, stub, STUB_LENGTH)[x]
    {
      UnmapAt(mem, stub, STUB_LENGTH, x);
      WriteAt(mem, t, bytes, x);
      WriteAt(written, hook.target, Redirection(jump, length), x);
      WriteAt(a.mem, stub, code, x);
      WriteAt(filtered, hook.target, a.hook.saved, x);
      UnmapAt(restored, t, length + JUMP_LENGTH, x);
      UnmapAt(restored, stub, STUB_LENGTH, x);
      UnmapAt(released, stub, STUB_LENGTH, x);
    }
  }

  lemma JumpsToReleasedStub<S(!new)>(cpu: HookMeaning.Processor<S>, mem: Memory, hook: Hook, stub: int,
                                     code: seq<Byte>, os: Os, os': Os, c: HookMeaning.Cpu<S>)
    requires HookMeaning.X86Like(X86, cpu) && FilterAttached(cpu, mem, hook, stub, os)
    requires |code| == STUB_LENGTH && !os'.writable && c.pc == hook.target
    ensures var a := AttachOutcome(X86, cpu.decode, mem, hook, stub, os);
            var r := DetachFilterOutcome(Write(a.mem, stub, code), a.hook, stub, os', true);
      && HookMeaning.Step(X86, cpu, r.mem, c) == Some(c.(pc := stub))
      && Decode(cpu.decode, r.mem, stub) == None
  {
    hide HookMeaning.X86Like, HookMeaning.Step, HookMeaning.IsAttached, AttachOutcome, Write, Unmap, AnalysisFrom, Rel32,
         Wrap, Dword, FromDword;
    var analysis := AnalysisFrom(cpu.decode, mem, hook.target, 0);
    var a := AttachOutcome(X86, cpu.decode, mem, hook, stub, os);
    HookMeaning.AttachAttaches(X86, cpu, mem, hook, stub, os);
    var h := HookMeaning.Attached(mem, a.mem, hook.target, stub, a.hook.trampoline, analysis.length, analysis.relocation);
    var offset := HookMeaning.TargetHoldsJump(X86, cpu, h);
    var r := DetachFilterOutcome(Write(a.mem, stub, code), a.hook, stub, os', true);
    TrampolineIsNotNull(X86, cpu.decode, mem, hook, stub, os);
    forall x | hook.target <= x < hook.target + JUMP_LENGTH
      ensures x in r.mem && r.mem[x] == a.mem[x]
    {
      WriteAt(a.mem, stub, code, x);
      UnmapAt(Write(a.mem, stub, code), stub, STUB_LENGTH, x);
    }
    assert Read(r.mem, hook.target, JUMP_LENGTH) == Read(a.mem, hook.target, JUMP_LENGTH);
    HookMeaning.StepRel32(X86, cpu, r.mem, c, Jump(offset));
    assert Jump(offset)[1..] == Dword(offset);
    DwordRoundTrip(offset);
    Rel32Reaches(X86, hook.target + JUMP_LENGTH, stub);
    UnmapAt(Write(a.mem, stub, code), stub, STUB_LENGTH, stub);
  }

  lemma TrampolineIsNotNull(p: Platform, d: Decoder, mem: Memory, hook: Hook, proxy: int, os: Os)
    requires 0 <= proxy < Modulus(p) && FreshAllocation(p, mem, os)
    requires AttachOutcome(p, d, mem, hook, proxy, os).status == Ok
    ensures AttachOutcome(p, d, mem, hook, proxy, os).hook.trampoline > 0
  {
    hide AnalysisFrom, TrampolineBytes, Rel32, Redirection, Write, Read;
  }

  // ---------- One such world ----------

  /** A function of four jumps, each to the next, and a stub. */
  const TARGET := 0x1000
  const STUB := 0x3000
  const WORLD: Memory := map a | TARGET <= a < STUB + STUB_LENGTH && (a < TARGET + 20 || STUB <= a) ::
    if a < STUB && (a - TARGET) % 5 == 0 then JMP else 0

  lemma JumpsInWorld(mem: Memory, k: nat)
    requires k < 4 && (mem == WORLD || mem == Unmap(WORLD, STUB, STUB_LENGTH))
    ensures Mapped(mem, TARGET + 5 * k, JUMP_LENGTH) && Read(mem, TARGET + 5 * k, JUMP_LENGTH) == Jump(0)
  {
    assert k == 0 || k == 1 || k == 2 || k == 3;
    assert Read(mem, TARGET + 5 * k, JUMP_LENGTH) == [JMP, 0, 0, 0, 0];
  }

  /** In it, with a detach that finds the code not writable, the next packet faults. */
  lemma SomeReleasedStubFaults(code: seq<Byte>)
    requires |code| == STUB_LENGTH
    ensures var cpu, hook := HookMeaning.SmallX86(X86), Hook(TARGET, [], 0, 0);
            var os, os' := Os(Some(0x2000), true, true), Os(None, false, true);
            var c := HookMeaning.Cpu(TARGET, [], 0);
            var a := AttachOutcome(X86, cpu.decode, WORLD, hook, STUB, os);
            var r := DetachFilterOutcome(Write(a.mem, STUB, code), a.hook, STUB, os', true);
      && FilterAttached(cpu, WORLD, hook, STUB, os)
      && r.status == ProtectionFailed
      && HookMeaning.Run(X86, cpu, Unmap(WORLD, STUB, STUB_LENGTH), c, 2).Some?
      && HookMeaning.Run(X86, cpu, r.mem, c, 2) == None
  {
    hide HookMeaning.X86Like, HookMeaning.Step, AttachOutcome, Write, Unmap, WORLD, Dword, FromDword, Wrap, Jump, Read;
    var cpu, hook := HookMeaning.SmallX86(X86), Hook(TARGET, [], 0, 0);
    var os, os' := Os(Some(0x2000), true, true), Os(None, false, true);
    var c := HookMeaning.Cpu(TARGET, [], 0);
    HookMeaning.SomeProcessorIsX86Like(X86);
    WorldIsMapped();
    HookMeaning.CallOrJmpCanBeHooked(cpu, WORLD, hook, STUB, os);
    var without := Unmap(WORLD, STUB, STUB_LENGTH);
    TwoJumps(without, c);
    ReleasedStubFaults(cpu, WORLD, hook, STUB, code, os, os', c);
    TrampolineIsNotNull(X86, cpu.decode, WORLD, hook, STUB, os);
  }

  lemma WorldIsMapped()
    ensures Mapped(WORLD, TARGET, JUMP_LENGTH) && WORLD[TARGET] == JMP && Mapped(WORLD, STUB, STUB_LENGTH)
    ensures FreshAllocation(X86, WORLD, Os(Some(0x2000), true, true))
  {
  }

  lemma TwoJumps(mem: Memory, c: HookMeaning.Cpu<int>)
    requires mem == Unmap(WORLD, STUB, STUB_LENGTH) && c.pc == TARGET
    ensures HookMeaning.Run(X86, HookMeaning.SmallX86(X86), mem, c, 2).Some?
  {
    hide HookMeaning.X86Like, HookMeaning.Step, HookMeaning.SmallX86, WORLD, Unmap, Dword, FromDword, Read, Jump;
    var cpu := HookMeaning.SmallX86(X86);
    HookMeaning.SomeProcessorIsX86Like(X86);
    JumpsInWorld(mem, 0);
    NextJump(mem, c);
    JumpsInWorld(mem, 1);
    var c1 := c.(pc := TARGET + 5);
    NextJump(mem, c1);
    var c2 := c1.(pc := TARGET + 10);
    assert HookMeaning.Run(X86, cpu, mem, c2, 0) == Some(c2);
    assert HookMeaning.Run(X86, cpu, mem, c1, 1) == Some(c2);
  }

  lemma NextJump(mem: Memory, c: HookMeaning.Cpu<int>)
    requires TARGET <= c.pc < STUB && Mapped(mem, c.pc, JUMP_LENGTH) && Read(mem, c.pc, JUMP_LENGTH) == Jump(0)
    ensures HookMeaning.Step(X86, HookMeaning.SmallX86(X86), mem, c) == Some(c.(pc := c.pc + 5))
  {
    hide HookMeaning.X86Like, HookMeaning.Step, HookMeaning.SmallX86, Dword, FromDword, Read;
    HookMeaning.SomeProcessorIsX86Like(X86);
    HookMeaning.StepRel32(X86, HookMeaning.SmallX86(X86), mem, c, Jump(0));
    assert Jump(0)[1..] == Dword(0);
    DwordRoundTrip(0);
  }
}
