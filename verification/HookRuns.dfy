// Any run of attach and detach over several hooks: Engine/Patches.cpp and the failure paths of HookUtils.cpp.

module HookRuns {
  import opened Wrappers
  import opened HookUtils

  datatype World = World(mem: Memory, hooks: seq<Hook>)

  datatype Op = AttachOp(index: nat, proxy: int, os: Os) | DetachOp(index: nat, os: Os)

  ghost predicate Possible(p: Platform, w: World, op: Op) {
    && op.index < |w.hooks|
    && (op.AttachOp? ==> 0 <= op.proxy < Modulus(p) && FreshAllocation(p, w.mem, op.os))
  }

  function Outcome(p: Platform, d: Decoder, w: World, op: Op): Attempt
    requires op.index < |w.hooks| && (op.AttachOp? ==> 0 <= op.proxy < Modulus(p))
  {
    match op
    case AttachOp(i, proxy, os) => AttachOutcome(p, d, w.mem, w.hooks[i], proxy, os)
    case DetachOp(i, os) => DetachOutcome(w.mem, w.hooks[i], os)
  }

  function After(p: Platform, d: Decoder, w: World, op: Op): World
    requires op.index < |w.hooks| && (op.AttachOp? ==> 0 <= op.proxy < Modulus(p))
  {
    var r := Outcome(p, d, w, op);
    World(r.mem, w.hooks[op.index := r.hook])
  }

  // ---------- One call ----------

  /** The allocation has been made when the call fails. */
  ghost predicate HasAllocated(p: Platform, d: Decoder, mem: Memory, hook: Hook, proxy: int, os: Os)
    requires 0 <= proxy < Modulus(p)
  {
    && hook.target != 0 && proxy != 0 && hook.trampoline == 0
    && AnalysisFrom(d, mem, hook.target, 0).Prefix?
    && Rel32(p, hook.target + JUMP_LENGTH, proxy).Some?
    && os.allocateAt.Some?
  }

  /**
   * An attach that does not succeed leaves the hook alone; it leaves memory alone, allocations included, if and only if
   * nothing had been allocated or the system took the allocation back: AttachHook does not look at that result.
   */
  lemma FailedAttach(p: Platform, d: Decoder, mem: Memory, hook: Hook, proxy: int, os: Os)
    requires 0 <= proxy < Modulus(p) && FreshAllocation(p, mem, os)
    requires AttachOutcome(p, d, mem, hook, proxy, os).status != Ok
    ensures var r := AttachOutcome(p, d, mem, hook, proxy, os);
      && r.hook == hook
      && (r.mem == mem <==> !HasAllocated(p, d, mem, hook, proxy, os) || os.releases)
      && forall a | a in mem :: a in r.mem && r.mem[a] == mem[a]
  {
    hide Rel32, TrampolineBytes, AnalysisFrom;
    var r := AttachOutcome(p, d, mem, hook, proxy, os);
    if HasAllocated(p, d, mem, hook, proxy, os) {
      var trampoline := os.allocateAt.value;
      assert trampoline !in mem;
      if !os.releases {
        assert trampoline in r.mem;
      }
    }
  }

  /** A function of five bytes, which this decoder takes for one instruction. */
  const FUNCTION: Memory := map a | 0x1000 <= a < 0x1005 :: NOP

  function FiveBytes(bytes: seq<Byte>): Option<Instruction> {
    if |bytes| == JUMP_LENGTH then Some(Instruction(false, true, NOP, false, 0, false)) else None
  }

  /** The failure that keeps its allocation: the code is not writable, and the system does not take the memory back. */
  lemma SomeFailureAllocates()
    ensures var hook, os := Hook(0x1000, [], 0, 0), Os(Some(0x2000), false, false);
            var r := AttachOutcome(X86, FiveBytes, FUNCTION, hook, 0x5000, os);
      && FreshAllocation(X86, FUNCTION, os)
      && r.status == ProtectionFailed && r.mem != FUNCTION
      && 0x2000 in r.mem && 0x2000 !in FUNCTION
  {
    hide Rel32, Wrap, Dword, TrampolineBytes;
    var hook, os := Hook(0x1000, [], 0, 0), Os(Some(0x2000), false, false);
    FiveBytesAreDecoded(1);
    assert AnalysisFrom(FiveBytes, FUNCTION, 0x1000, 0) == Prefix(JUMP_LENGTH, None);
    AlwaysInRange(0x2000 + 10, 0x1005);
    AlwaysInRange(0x1005, 0x5000);
    var copy := Read(FUNCTION, 0x1000, JUMP_LENGTH);
    assert TrampolineBytes(X86, copy, 0x1000, 0x2000, None).Some? by { NothingToRelocate(copy); }
    WriteAt(FUNCTION, 0x2000, TrampolineBytes(X86, copy, 0x1000, 0x2000, None).value, 0x2000);
  }

  lemma AlwaysInRange(next: int, destination: int)
    requires 0 <= destination < Modulus(X86)
    ensures Rel32(X86, next, destination).Some?
  {
  }

  lemma NothingToRelocate(copy: seq<Byte>)
    ensures TrampolineBytes(X86, copy, 0x1000, 0x2000, None).Some?
  {
    hide Wrap, Dword;
  }

  lemma {:induction false} FiveBytesAreDecoded(n: nat)
    requires 1 <= n <= JUMP_LENGTH
    ensures Mapped(FUNCTION, 0x1000, n - 1)
    ensures DecodeFrom(FiveBytes, FUNCTION, 0x1000, n)
         == Some(Decoded(JUMP_LENGTH, Instruction(false, true, NOP, false, 0, false)))
    decreases JUMP_LENGTH - n
  {
    if n < JUMP_LENGTH {
      FiveBytesAreDecoded(n + 1);
    }
  }

  /** Which result a detach gives, and that Ok and ReleaseFailed both put the saved bytes back. */
  lemma DetachRestores(mem: Memory, hook: Hook, os: Os)
    requires hook.trampoline != 0
    requires hook.target + |hook.saved| <= hook.trampoline || hook.trampoline + |hook.saved| + JUMP_LENGTH <= hook.target
    ensures var r := DetachOutcome(mem, hook, os);
      && (r.status == Ok <==> os.writable && os.releases)
      && (r.status == ReleaseFailed <==> os.writable && !os.releases)
      && (r.status == ProtectionFailed <==> !os.writable)
      && (r.status != ProtectionFailed ==>
            && Mapped(r.mem, hook.target, |hook.saved|)
            && Read(r.mem, hook.target, |hook.saved|) == hook.saved
            && r.hook.trampoline == 0)
      && (r.status == ProtectionFailed ==> r.mem == mem && r.hook == hook)
      && (r.hook.redirected == 0 <==> r.status == Ok || hook.redirected == 0)
  {
    if os.writable {
      var restored := Write(mem, hook.target, hook.saved);
      assert Mapped(restored, hook.target, |hook.saved|);
      assert Read(restored, hook.target, |hook.saved|) == hook.saved;
    }
  }

  /** Attaching then detaching, when both succeed, is doing nothing to memory. */
  lemma DetachUndoesAttach(p: Platform, d: Decoder, mem: Memory, hook: Hook, proxy: int, os: Os, os': Os)
    requires 0 <= proxy < Modulus(p) && FreshAllocation(p, mem, os)
    requires AttachOutcome(p, d, mem, hook, proxy, os).status == Ok
    requires os'.writable && os'.releases
    ensures var r := AttachOutcome(p, d, mem, hook, proxy, os);
      DetachOutcome(r.mem, r.hook, os') == Attempt(Ok, mem, Hook(hook.target, [], 0, 0))
  {
    hide AttachOutcome, FreshAllocation, AnalysisFrom, Rel32, TrampolineBytes, Redirection, Write, Unmap, Mapped,
         Unmapped, Read;
    var length, relocation, bytes, jump := SuccessIs(p, d, mem, hook, proxy, os);
    AllocatesAbove(p, mem, os);
    FreshIsApart(p, mem, hook.target, length, os);
    WritesUndone(mem, os.allocateAt.value, bytes, hook.target, Redirection(jump, length));
  }

  lemma OverwriteUndone(mem: Memory, target: int, redirection: seq<Byte>, original: seq<Byte>)
    requires |original| == |redirection|
    ensures Write(Write(mem, target, redirection), target, original) == Write(mem, target, original)
  {
  }

  lemma AllocatesAbove(p: Platform, mem: Memory, os: Os)
    requires FreshAllocation(p, mem, os) && os.allocateAt.Some?
    ensures os.allocateAt.value != 0
  {
  }

  lemma WritesUndone(mem: Memory, trampoline: int, bytes: seq<Byte>, target: int, redirection: seq<Byte>)
    requires Unmapped(mem, trampoline, |bytes|) && Mapped(mem, target, |redirection|)
    requires 0 < |bytes| && 0 < |redirection|
    ensures Unmap(Write(Write(Write(mem, trampoline, bytes), target, redirection), target, Read(mem, target, |redirection|)),
                  trampoline, |bytes|) == mem
  {
    hide Write, Unmap, Read, Mapped, Unmapped;
    var original := Read(mem, target, |redirection|);
    OverwriteUndone(Write(mem, trampoline, bytes), target, redirection, original);
    MappedApart(mem, target, |redirection|, trampoline, |bytes|);
    ReadElsewhere(mem, target, |redirection|, trampoline, bytes);
    WriteSame(Write(mem, trampoline, bytes), target, |redirection|);
    UnmapWrite(mem, trampoline, bytes);
  }

  lemma WriteSame(mem: Memory, address: int, length: nat)
    requires Mapped(mem, address, length)
    ensures Write(mem, address, Read(mem, address, length)) == mem
  {
  }

  // ---------- Runs ----------

  predicate UnderHook(h: Hook, a: int) { h.trampoline != 0 && h.target <= a < h.target + |h.saved| }

  predicate InTrampoline(h: Hook, a: int) {
    h.trampoline != 0 && h.trampoline <= a < h.trampoline + |h.saved| + JUMP_LENGTH
  }

  /** The hooks are far enough apart for each to be decoded on its own. */
  ghost predicate Disjoint(orig: Memory, hooks: seq<Hook>) {
    && (forall i | 0 <= i < |hooks| :: 0 < hooks[i].target && Mapped(orig, hooks[i].target, MAX_SAVED_LENGTH))
    && (forall i, j | 0 <= i < |hooks| && 0 <= j < |hooks| && i != j ::
          hooks[i].target + MAX_SAVED_LENGTH <= hooks[j].target || hooks[j].target + MAX_SAVED_LENGTH <= hooks[i].target)
  }

  /** What a hook says is true of the engine: its saved bytes are the original ones. */
  ghost predicate Faithful(orig: Memory, h: Hook) {
    if h.trampoline == 0 then h.saved == []
    else
      && JUMP_LENGTH <= |h.saved| <= MAX_SAVED_LENGTH
      && Mapped(orig, h.target, |h.saved|)
      && h.saved == Read(orig, h.target, |h.saved|)
  }

  /** The engine is all there, and as it was but under the attached hooks. */
  ghost predicate EngineKept(orig: Memory, w: World) {
    forall a | a in orig ::
      && a in w.mem
      && ((forall i | 0 <= i < |w.hooks| :: !UnderHook(w.hooks[i], a)) ==> w.mem[a] == orig[a])
  }

  /** What is mapped is the engine, the trampolines, and what leaked. */
  ghost predicate Accounted(orig: Memory, w: World, leaked: set<int>) {
    forall a | a in w.mem ::
      a in orig || a in leaked || exists i | 0 <= i < |w.hooks| :: InTrampoline(w.hooks[i], a)
  }

  /** The trampolines are mapped, apart from each other, from the engine and from what leaked. */
  ghost predicate Apart(orig: Memory, w: World, leaked: set<int>) {
    && (forall i, a | 0 <= i < |w.hooks| && InTrampoline(w.hooks[i], a) :: a in w.mem && a !in orig && a !in leaked)
    && (forall i, j, a | 0 <= i < |w.hooks| && 0 <= j < |w.hooks| && i != j && InTrampoline(w.hooks[i], a) ::
          !InTrampoline(w.hooks[j], a))
    && (forall a | a in leaked :: a in w.mem && a !in orig)
  }

  ghost predicate AllFaithful(orig: Memory, hooks: seq<Hook>) {
    forall i | 0 <= i < |hooks| :: Faithful(orig, hooks[i])
  }

  /**
   * The invariant: the engine's memory is the original one but under the attached hooks, whose saved bytes are the
   * original ones, and what is mapped is the engine, the trampolines, which do not overlap, and what leaked.
   */
  ghost predicate Consistent(orig: Memory, w: World, leaked: set<int>) {
    && Disjoint(orig, w.hooks)
    && AllFaithful(orig, w.hooks)
    && EngineKept(orig, w)
    && Accounted(orig, w, leaked)
    && Apart(orig, w, leaked)
  }

  /** The window of a hook that is not attached still holds the original bytes, whatever the others do. */
  lemma WindowIsOriginal(orig: Memory, w: World, leaked: set<int>, i: nat, a: int)
    requires Consistent(orig, w, leaked) && i < |w.hooks| && w.hooks[i].trampoline == 0
    requires w.hooks[i].target <= a < w.hooks[i].target + MAX_SAVED_LENGTH
    ensures a in orig && a in w.mem && w.mem[a] == orig[a]
  {
    hide Read;
    forall j | 0 <= j < |w.hooks|
      ensures !UnderHook(w.hooks[j], a)
    {
      assert Faithful(orig, w.hooks[j]);
    }
  }

  function TrampolineRegion(h: Hook): set<int> {
    Region(h.trampoline, |h.saved| + JUMP_LENGTH)
  }

  function Region(address: int, length: nat): set<int> {
    set a | address <= a < address + length && Within(a, address, length)
  }

  /** The memory that one call makes unreachable: allocated, not a trampoline, never released. */
  function Leaked(p: Platform, d: Decoder, w: World, op: Op): set<int>
    requires op.index < |w.hooks| && (op.AttachOp? ==> 0 <= op.proxy < Modulus(p))
  {
    var r := Outcome(p, d, w, op);
    if op.AttachOp? && r.status != Ok then r.mem.Keys - w.mem.Keys
    else if op.DetachOp? && r.status == ReleaseFailed then
      TrampolineRegion(w.hooks[op.index])
    else {}
  }

  lemma DetachKeeps(p: Platform, d: Decoder, orig: Memory, w: World, leaked: set<int>, op: Op)
    requires Consistent(orig, w, leaked) && Possible(p, w, op) && op.DetachOp?
    ensures Consistent(orig, After(p, d, w, op), leaked + Leaked(p, d, w, op))
  {
    hide Write, Unmap, Read, Consistent, TrampolineRegion;
    var w' := After(p, d, w, op);
    var i, h := op.index, w.hooks[op.index];
    if h.trampoline == 0 || !op.os.writable {
      assert leaked + Leaked(p, d, w, op) == leaked;
      SameButPointer(orig, w, leaked, i, w'.hooks[i]);
    } else {
      assert op.os.releases ==> leaked + Leaked(p, d, w, op) == leaked;
      DetachedWorld(orig, w, leaked, i, op.os);
    }
  }

  /** The redirected pointer is not part of the invariant. */
  lemma SameButPointer(orig: Memory, w: World, leaked: set<int>, i: nat, h: Hook)
    requires Consistent(orig, w, leaked) && i < |w.hooks| && h == w.hooks[i].(redirected := h.redirected)
    ensures Consistent(orig, World(w.mem, w.hooks[i := h]), leaked)
  {
    hide Disjoint, Faithful, EngineKept, Accounted, Apart;
    FaithfulPointer(orig, w.hooks[i], h);
    var w' := World(w.mem, w.hooks[i := h]);
    DisjointRegions(orig, w, w');
    KeptRegions(orig, w, w');
    AccountedRegions(orig, w, w', leaked);
    ApartRegions(orig, w, w', leaked);
  }

  /** The hooks have the same places. */
  ghost predicate SameRegions(w: World, w': World) {
    && w.mem == w'.mem && |w.hooks| == |w'.hooks|
    && forall j | 0 <= j < |w.hooks| ::
         && w.hooks[j].target == w'.hooks[j].target && w.hooks[j].trampoline == w'.hooks[j].trampoline
         && |w.hooks[j].saved| == |w'.hooks[j].saved|
  }

  lemma DisjointRegions(orig: Memory, w: World, w': World)
    requires SameRegions(w, w') && Disjoint(orig, w.hooks)
    ensures Disjoint(orig, w'.hooks)
  {
    hide Mapped;
  }

  lemma KeptRegions(orig: Memory, w: World, w': World)
    requires SameRegions(w, w') && EngineKept(orig, w)
    ensures EngineKept(orig, w')
  {
    forall a, j | 0 <= j < |w.hooks|
      ensures UnderHook(w'.hooks[j], a) == UnderHook(w.hooks[j], a)
    {
    }
  }

  lemma AccountedRegions(orig: Memory, w: World, w': World, leaked: set<int>)
    requires SameRegions(w, w') && Accounted(orig, w, leaked)
    ensures Accounted(orig, w', leaked)
  {
    forall a, j | 0 <= j < |w.hooks|
      ensures InTrampoline(w'.hooks[j], a) == InTrampoline(w.hooks[j], a)
    {
    }
  }

  lemma ApartRegions(orig: Memory, w: World, w': World, leaked: set<int>)
    requires SameRegions(w, w') && Apart(orig, w, leaked)
    ensures Apart(orig, w', leaked)
  {
    forall a, j | 0 <= j < |w.hooks|
      ensures InTrampoline(w'.hooks[j], a) == InTrampoline(w.hooks[j], a)
    {
    }
  }

  lemma FaithfulPointer(orig: Memory, h: Hook, h': Hook)
    requires Faithful(orig, h) && h' == h.(redirected := h'.redirected)
    ensures Faithful(orig, h')
  {
  }

  /** The world after the bytes of hook i are put back and its trampoline is released, or leaks. */
  lemma DetachedWorld(orig: Memory, w: World, leaked: set<int>, i: nat, os: Os)
    requires Consistent(orig, w, leaked) && i < |w.hooks| && w.hooks[i].trampoline != 0 && os.writable
    ensures var r := DetachOutcome(w.mem, w.hooks[i], os);
      Consistent(orig, World(r.mem, w.hooks[i := r.hook]),
                 if os.releases then leaked else leaked + TrampolineRegion(w.hooks[i]))
  {
    hide Write, Unmap, Read, Mapped, Accounted, Apart, Disjoint;
    var h := w.hooks[i];
    assert Faithful(orig, h);
    DetachedMemory(orig, w.mem, h, os);
    RemovedHook(orig, w, leaked, i, DetachOutcome(w.mem, h, os).hook, DetachOutcome(w.mem, h, os).mem, os.releases);
  }

  lemma DetachedMemory(orig: Memory, mem: Memory, h: Hook, os: Os)
    requires h.trampoline != 0 && os.writable && Faithful(orig, h)
    requires forall a | a in orig :: a in mem
    ensures forall a | UnderHook(h, a) :: a in orig
    ensures var r := DetachOutcome(mem, h, os);
      && (forall a :: a in r.mem <==> a in mem && !(os.releases && InTrampoline(h, a)))
      && (forall a | a in r.mem :: r.mem[a] == if UnderHook(h, a) then orig[a] else mem[a])
  {
    hide Write, Unmap;
    var r := DetachOutcome(mem, h, os);
    forall a
      ensures UnderHook(h, a) ==> a in orig && h.saved[a - h.target] == orig[a]
      ensures a in r.mem <==> a in mem && !(os.releases && InTrampoline(h, a))
      ensures a in r.mem ==> r.mem[a] == if UnderHook(h, a) then orig[a] else mem[a]
    {
      if UnderHook(h, a) {
        SavedAt(orig, h, a);
      }
      WriteAt(mem, h.target, h.saved, a);
      UnmapAt(Write(mem, h.target, h.saved), h.trampoline, |h.saved| + JUMP_LENGTH, a);
    }
  }

  /** What detaching hook i has to do to keep the invariant. */
  ghost predicate Removes(orig: Memory, w: World, i: nat, h: Hook, mem: Memory, released: bool) {
    && i < |w.hooks| && w.hooks[i].trampoline != 0
    && h.trampoline == 0 && h.saved == [] && h.target == w.hooks[i].target
    && (forall a | UnderHook(w.hooks[i], a) :: a in orig)
    && (forall a :: a in mem <==> a in w.mem && !(released && InTrampoline(w.hooks[i], a)))
    && (forall a | a in mem :: mem[a] == if UnderHook(w.hooks[i], a) then orig[a] else w.mem[a])
  }

  lemma RemovedHook(orig: Memory, w: World, leaked: set<int>, i: nat, h: Hook, mem: Memory, released: bool)
    requires Consistent(orig, w, leaked) && Removes(orig, w, i, h, mem, released)
    ensures Consistent(orig, World(mem, w.hooks[i := h]),
                       if released then leaked else leaked + TrampolineRegion(w.hooks[i]))
  {
    var w' := World(mem, w.hooks[i := h]);
    assert Disjoint(orig, w'.hooks) && AllFaithful(orig, w'.hooks) by {
      hide EngineKept, Accounted, Apart, Read;
      assert Faithful(orig, h);
    }
    hide EngineKept, Accounted, Apart, Disjoint, AllFaithful, Removes;
    RemovedKeepsEngine(orig, w, leaked, i, h, mem, released);
    RemovedAccounted(orig, w, leaked, i, h, mem, released);
    RemovedApart(orig, w, leaked, i, h, mem, released);
  }

  lemma RemovedKeepsEngine(orig: Memory, w: World, leaked: set<int>, i: nat, h: Hook, mem: Memory, released: bool)
    requires EngineKept(orig, w) && Apart(orig, w, leaked) && Removes(orig, w, i, h, mem, released)
    ensures EngineKept(orig, World(mem, w.hooks[i := h]))
  {
    var hooks := w.hooks[i := h];
    forall a | a in orig && !UnderHook(w.hooks[i], a) && (forall j | 0 <= j < |hooks| :: !UnderHook(hooks[j], a))
      ensures mem[a] == orig[a]
    {
      forall j | 0 <= j < |w.hooks|
        ensures !UnderHook(w.hooks[j], a)
      {
        assert j != i ==> hooks[j] == w.hooks[j] && !UnderHook(hooks[j], a);
      }
    }
  }

  lemma RemovedAccounted(orig: Memory, w: World, leaked: set<int>, i: nat, h: Hook, mem: Memory, released: bool)
    requires Accounted(orig, w, leaked) && Removes(orig, w, i, h, mem, released)
    ensures Accounted(orig, World(mem, w.hooks[i := h]),
                      if released then leaked else leaked + TrampolineRegion(w.hooks[i]))
  {
    var hooks, leaked' := w.hooks[i := h], if released then leaked else leaked + TrampolineRegion(w.hooks[i]);
    forall a | a in mem && a !in orig && a !in leaked'
      ensures exists j | 0 <= j < |hooks| :: InTrampoline(hooks[j], a)
    {
      var j :| 0 <= j < |w.hooks| && InTrampoline(w.hooks[j], a);
      assert j != i && InTrampoline(hooks[j], a);
    }
  }

  lemma RemovedApart(orig: Memory, w: World, leaked: set<int>, i: nat, h: Hook, mem: Memory, released: bool)
    requires Apart(orig, w, leaked) && Removes(orig, w, i, h, mem, released)
    ensures Apart(orig, World(mem, w.hooks[i := h]),
                  if released then leaked else leaked + TrampolineRegion(w.hooks[i]))
  {
    var hooks := w.hooks[i := h];
    assert forall j, a | 0 <= j < |hooks| && InTrampoline(hooks[j], a) :: j != i && InTrampoline(w.hooks[j], a);
  }

  lemma AttachKeeps(p: Platform, d: Decoder, orig: Memory, w: World, leaked: set<int>, op: Op)
    requires Consistent(orig, w, leaked) && Possible(p, w, op) && op.AttachOp?
    ensures Consistent(orig, After(p, d, w, op), leaked + Leaked(p, d, w, op))
  {
    hide AttachOutcome, Read, FreshAllocation;
    var w', leaked' := After(p, d, w, op), leaked + Leaked(p, d, w, op);
    if Outcome(p, d, w, op).status == Ok {
      AttachedWorld(p, d, orig, w, leaked, op);
      assert leaked' == leaked;
    } else {
      FailedAttach(p, d, w.mem, w.hooks[op.index], op.proxy, op.os);
      assert w'.hooks == w.hooks;
      MoreLeaked(orig, w, w'.mem, leaked);
      assert w' == World(w'.mem, w.hooks);
    }
  }

  lemma MoreLeaked(orig: Memory, w: World, mem: Memory, leaked: set<int>)
    requires Consistent(orig, w, leaked)
    requires forall a | a in w.mem :: a in mem && mem[a] == w.mem[a]
    ensures Consistent(orig, World(mem, w.hooks), leaked + (mem.Keys - w.mem.Keys))
  {
    hide Faithful, Disjoint;
  }

  lemma AttachedWorld(p: Platform, d: Decoder, orig: Memory, w: World, leaked: set<int>, op: Op)
    requires Consistent(orig, w, leaked) && Possible(p, w, op) && op.AttachOp?
    requires Outcome(p, d, w, op).status == Ok
    ensures Consistent(orig, After(p, d, w, op), leaked)
  {
    hide AttachOutcome, Rel32, TrampolineBytes, Redirection, AnalysisFrom, Write, Consistent;
    var i, h := op.index, w.hooks[op.index];
    var r := Outcome(p, d, w, op);
    var length, relocation, bytes, jump := SuccessIs(p, d, w.mem, h, op.proxy, op.os);
    forall a | h.target <= a < h.target + MAX_SAVED_LENGTH
      ensures a in orig && a in w.mem && w.mem[a] == orig[a]
    {
      WindowIsOriginal(orig, w, leaked, i, a);
    }
    assert Faithful(orig, r.hook);
    var redirection := Redirection(jump, length);
    forall a
      ensures a in r.mem <==> a in w.mem || InTrampoline(r.hook, a)
      ensures InTrampoline(r.hook, a) ==> a !in w.mem
      ensures a in w.mem && !UnderHook(r.hook, a) ==> r.mem[a] == w.mem[a]
    {
      WriteAt(Write(w.mem, r.hook.trampoline, bytes), h.target, redirection, a);
      WriteAt(w.mem, r.hook.trampoline, bytes, a);
    }
    AddedHook(orig, w, leaked, i, r.hook, r.mem);
  }

  /** What attaching hook i has to do to keep the invariant. */
  lemma AddedHook(orig: Memory, w: World, leaked: set<int>, i: nat, h: Hook, mem: Memory)
    requires Consistent(orig, w, leaked) && i < |w.hooks| && w.hooks[i].trampoline == 0
    requires h.target == w.hooks[i].target && Faithful(orig, h)
    requires forall a :: a in mem <==> a in w.mem || InTrampoline(h, a)
    requires forall a | InTrampoline(h, a) :: a !in w.mem
    requires forall a | a in w.mem && !UnderHook(h, a) :: mem[a] == w.mem[a]
    ensures Consistent(orig, World(mem, w.hooks[i := h]), leaked)
  {
    hide Faithful;
    var w' := World(mem, w.hooks[i := h]);
    assert forall j | 0 <= j < |w'.hooks| && j != i :: w'.hooks[j] == w.hooks[j];
    assert Disjoint(orig, w'.hooks) && AllFaithful(orig, w'.hooks) by {
      hide EngineKept, Accounted, Apart, Read;
    }
    assert EngineKept(orig, w') by {
      hide Disjoint, AllFaithful, Accounted, Apart;
      forall a | a in orig && (forall j | 0 <= j < |w'.hooks| :: !UnderHook(w'.hooks[j], a))
        ensures mem[a] == orig[a]
      {
        assert !UnderHook(w'.hooks[i], a);
        assert forall j | 0 <= j < |w.hooks| && j != i :: !UnderHook(w'.hooks[j], a);
      }
    }
    assert Accounted(orig, w', leaked) by {
      hide Disjoint, AllFaithful, EngineKept, Apart;
      forall a | a in mem && a !in orig && a !in leaked
        ensures exists j | 0 <= j < |w'.hooks| :: InTrampoline(w'.hooks[j], a)
      {
        if a in w.mem {
          var j :| 0 <= j < |w.hooks| && InTrampoline(w.hooks[j], a);
          assert InTrampoline(w'.hooks[j], a);
        } else {
          assert InTrampoline(w'.hooks[i], a);
        }
      }
    }
    assert Apart(orig, w', leaked) by {
      hide Disjoint, AllFaithful, Accounted;
    }
  }

  /** A run the system allows, and what it leaks. */
  ghost predicate PossibleRun(p: Platform, d: Decoder, w: World, ops: seq<Op>)
    decreases |ops|
  {
    ops == [] || (Possible(p, w, ops[0]) && PossibleRun(p, d, After(p, d, w, ops[0]), ops[1..]))
  }

  function AfterRun(p: Platform, d: Decoder, w: World, ops: seq<Op>): World
    requires PossibleRun(p, d, w, ops)
    decreases |ops|
  {
    if ops == [] then w else AfterRun(p, d, After(p, d, w, ops[0]), ops[1..])
  }

  function LeakedInRun(p: Platform, d: Decoder, w: World, ops: seq<Op>): set<int>
    requires PossibleRun(p, d, w, ops)
    decreases |ops|
  {
    if ops == [] then {}
    else Leaked(p, d, w, ops[0]) + LeakedInRun(p, d, After(p, d, w, ops[0]), ops[1..])
  }

  lemma {:induction false} RunKeeps(p: Platform, d: Decoder, orig: Memory, w: World, leaked: set<int>, ops: seq<Op>)
    requires Consistent(orig, w, leaked) && PossibleRun(p, d, w, ops)
    ensures Consistent(orig, AfterRun(p, d, w, ops), leaked + LeakedInRun(p, d, w, ops))
    decreases |ops|
  {
    hide Consistent, After, Leaked;
    if ops == [] {
      assert leaked + LeakedInRun(p, d, w, ops) == leaked;
    } else {
      var op := ops[0];
      var w', leaked' := After(p, d, w, op), leaked + Leaked(p, d, w, op);
      if op.AttachOp? {
        AttachKeeps(p, d, orig, w, leaked, op);
      } else {
        DetachKeeps(p, d, orig, w, leaked, op);
      }
      RunKeeps(p, d, orig, w', leaked', ops[1..]);
      assert leaked + LeakedInRun(p, d, w, ops) == leaked' + LeakedInRun(p, d, w', ops[1..]);
    }
  }

  /** Where every run starts: no hook attached. */
  ghost predicate Initial(orig: Memory, hooks: seq<Hook>) {
    && Disjoint(orig, hooks)
    && forall i | 0 <= i < |hooks| :: hooks[i].trampoline == 0 && hooks[i].saved == []
  }

  /**
   * Safety over whole runs: whatever attaches and detaches were tried, and whatever the system did, the engine is
   * the original one but under the hooks attached now, and what they saved is the original code.
   */
  lemma EngineIsOriginalOutsideHooks(p: Platform, d: Decoder, orig: Memory, hooks: seq<Hook>, ops: seq<Op>, a: int)
    requires Initial(orig, hooks) && PossibleRun(p, d, World(orig, hooks), ops) && a in orig
    ensures var w := AfterRun(p, d, World(orig, hooks), ops);
      && a in w.mem
      && ((forall i | 0 <= i < |w.hooks| :: !UnderHook(w.hooks[i], a)) ==> w.mem[a] == orig[a])
      && forall i | 0 <= i < |w.hooks| && UnderHook(w.hooks[i], a) ::
           a - w.hooks[i].target < |w.hooks[i].saved| && w.hooks[i].saved[a - w.hooks[i].target] == orig[a]
  {
    hide AfterRun, PossibleRun, Initial, Consistent, Faithful;
    StartConsistent(orig, hooks);
    RunKeeps(p, d, orig, World(orig, hooks), {}, ops);
    var w := AfterRun(p, d, World(orig, hooks), ops);
    ConsistentMeans(orig, w, {} + LeakedInRun(p, d, World(orig, hooks), ops), a);
    forall i | 0 <= i < |w.hooks| && UnderHook(w.hooks[i], a)
      ensures a - w.hooks[i].target < |w.hooks[i].saved| && w.hooks[i].saved[a - w.hooks[i].target] == orig[a]
    {
      assert Faithful(orig, w.hooks[i]);
      SavedAt(orig, w.hooks[i], a);
    }
  }

  lemma ConsistentMeans(orig: Memory, w: World, leaked: set<int>, a: int)
    requires Consistent(orig, w, leaked) && a in orig
    ensures AllFaithful(orig, w.hooks) && a in w.mem
    ensures (forall i | 0 <= i < |w.hooks| :: !UnderHook(w.hooks[i], a)) ==> w.mem[a] == orig[a]
  {
    hide Disjoint, Accounted, Apart, Faithful;
  }

  lemma SavedAt(orig: Memory, h: Hook, a: int)
    requires Faithful(orig, h) && UnderHook(h, a)
    ensures a in orig && h.saved[a - h.target] == orig[a]
  {
  }

  /** Conservation: once every hook is detached, memory is the original one and what leaked, so when no release
      failed it is the original one exactly. */
  lemma AllDetachedIsOriginal(p: Platform, d: Decoder, orig: Memory, hooks: seq<Hook>, ops: seq<Op>)
    requires Initial(orig, hooks) && PossibleRun(p, d, World(orig, hooks), ops)
    requires var w := AfterRun(p, d, World(orig, hooks), ops);
      forall i | 0 <= i < |w.hooks| :: w.hooks[i].trampoline == 0
    ensures var w, leaked := AfterRun(p, d, World(orig, hooks), ops), LeakedInRun(p, d, World(orig, hooks), ops);
      && w.mem.Keys == orig.Keys + leaked
      && (forall a | a in orig :: w.mem[a] == orig[a])
      && (leaked == {} ==> w.mem == orig)
  {
    hide Faithful, Disjoint, AllFaithful, EngineKept, Accounted, Apart;
    StartConsistent(orig, hooks);
    RunKeeps(p, d, orig, World(orig, hooks), {}, ops);
    var w, leaked := AfterRun(p, d, World(orig, hooks), ops), LeakedInRun(p, d, World(orig, hooks), ops);
    assert {} + leaked == leaked;
    NoHookIsOriginal(orig, w, leaked);
  }

  lemma NoHookIsOriginal(orig: Memory, w: World, leaked: set<int>)
    requires Consistent(orig, w, leaked)
    requires forall i | 0 <= i < |w.hooks| :: w.hooks[i].trampoline == 0
    ensures w.mem.Keys == orig.Keys + leaked
    ensures forall a | a in orig :: w.mem[a] == orig[a]
  {
    hide Disjoint, AllFaithful;
    assert forall a :: a in w.mem <==> a in orig || a in leaked;
  }

  lemma StartConsistent(orig: Memory, hooks: seq<Hook>)
    requires Initial(orig, hooks)
    ensures Consistent(orig, World(orig, hooks), {})
  {
    hide Disjoint;
  }
}
