# The proxy, modelled and proved

This project models the parts of the JKA YBEProxy, a patcher and filter in front of a Jedi Academy server, that hold
state, arithmetic or text formats, and proves in Dafny what they are for:

- **Trampoline hooks.** Memory is a partial map from addresses to bytes, the decoder and the processor are parameters,
  and what the operating system decides is a parameter too. Analysis, relocation, attach and detach are the methods of
  the source on that memory, and each failure path is there. The main result is a simulation: a program that calls an
  attached function through its trampoline runs as the original program does until it enters the function again, and
  then it is at the proxy, with the same data. Behind a proxy that only passes its calls on, this holds for the whole
  run, however often the function is entered. Over any run of attach and detach, the engine's code is the original one
  outside the attached hooks, and what is mapped is accounted for byte by byte.
- **The packet filter stub.** Its 42 bytes are run on a small x86 machine, for every stack and every filter; its life
  from attach to detach is on the memory of the hooks.
- **Rate limiting.** Leaky buckets on wrapping unsigned time, the garbage-collected table and the global buckets; the
  rate bound holds over whole runs of mixed requests, across wraps and evictions.
- **Client time.** The feedback loop that simulates a client stays in a band for every interval that the caller lets
  through, and the C++ with running sums gives what the list-based script gives, over reals.
- **Strings, names, info strings, bans, tokens, chunks.** The in-place loops are proved against functions on strings,
  and the round trips, normal forms and uniqueness about those functions.
- **Challenges, client messages, pure paks.** Stateless challenges with their persisted key, reliable commands run once
  and in order, usercmds whose loss is repaired by repetition, and the check of the paks.

Each file is one module, named after the part of the proxy it models. Code that works in place is an imperative method,
and its contract ties it to a function of the old state; the lemmas are about that function. `Wrappers.dfy` and
`Arithmetic.dfy` hold what several modules share. `dafny verify dfyconfig.toml` checks everything.

What the proofs found to differ from what the comments of the source say:

- `AttachHook` says that nothing stays allocated when it fails. It does not look at the result of `ReleaseMemory`:
  `HookRuns.FailedAttach` says exactly when memory is as before, and `HookRuns.SomeFailureAllocates` is a failure after
  which it is not.
- `DetachPacketEventFilter` releases the stub even when the detach answered `ProtectionFailed`, and the engine's
  function then still jumps to it. `FilterStub.ReleasedStubFaults`: a call of the function faults in its second step if
  and only if the code was not writable. `FilterStub.SomeReleasedStubFaults` is one such call.
- `Info_SetValueForKey` prints the new pair into 1024 bytes before it measures it. A longer pair set in a string that
  has nothing else is stored cut, and reported as a success: `InfoStrings.SetThenGet` says exactly when the value reads
  back, and `InfoStrings.CutIsStored` is one that does not.
- A set that is refused for want of room has removed the old pair: `InfoStrings.SetOtherwise` says exactly when the list
  stays, and `InfoStrings.RefusedSetForgets` is a set that loses a value.
- `Analyze` takes a rel32 call or jmp for safe to move. It is not when it goes into the middle of the prefix, which the
  hook overwrites: `HookMeaning.StepRelocated` says exactly when the moved one does what the original does, and
  `HookMeaning.JumpIntoMiddleFaults` is a function that is accepted, loops, and faults through its trampoline.
- `Validate` is there to refuse a userinfo with a forbidden key, or with a key twice, but it stops counting at an empty
  key. Without empty keys it does what it is for (`Userinfo.ValidIsWithinLimits`). Behind an empty key anything passes
  (`Userinfo.AnythingPassesBehindEmptyKey`); `Userinfo.AcceptedWithinLimits` says exactly which accepted userinfos are
  within the limits, and `Userinfo.SomeAcceptedAreOverLimits` is one with three names and a forbidden key.
- The bans of the retail game are read through 256 characters, without the care for the last word that the file gets:
  `Bans.LegacyReadAddsWholeWords` says exactly when no word is cut, and `Bans.LegacyCutIsWider` is a ban that gets wider.
- `RemoveIP` may take the legacy reading of a text with a 0 before the filter that the same text added:
  `Bans.RemoveUndoesAdd` says exactly when it undoes the addition, and `Bans.LegacyIsTakenFirst` is a case in which it
  takes another filter.

## Model

| member | source | states |
|---|---|---|
| HookUtils.Rel32Reaches | src/JKA_YBEProxy/HookUtils/HookUtils.cpp:82-105 | a rel32 that is given reaches its destination modulo the size of an address; on x86 one always is |
| HookUtils.Rel32Complete | src/JKA_YBEProxy/HookUtils/HookUtils.cpp:93-103 | any 32-bit offset that reaches the destination is the one given: on x64 it is refused only when none would do |
| HookUtils.DwordRoundTrip | src/JKA_YBEProxy/HookUtils/HookUtils.cpp:346-356 | an offset copied to four bytes reads back |
| HookUtils.DecodeLocal | src/JKA_YBEProxy/HookUtils/HookUtils.cpp:140-143 | decoding depends only on the bytes of the instruction it finds, so a copy decodes alike |
| HookUtils.Analyze | src/JKA_YBEProxy/HookUtils/HookUtils.cpp:120-175 | the loop gives the analysis of the memory at the target: the status, or the length and the relocation |
| HookUtils.AnalysisIsMovable | src/JKA_YBEProxy/HookUtils/HookUtils.cpp:107-118 | an accepted prefix is whole instructions of 5 to 19 bytes that can run elsewhere, and a relocated one is the last |
| HookUtils.RefusalIs | src/JKA_YBEProxy/HookUtils/HookUtils.cpp:120-175 | exactly which code is refused, and with which status: a ret that ends before the fifth byte, else a relative instruction that cannot be rewritten, else one that is none, each reached by whole instructions that are not relative |
| HookUtils.MovableIsAccepted | src/JKA_YBEProxy/HookUtils/HookUtils.cpp:107-118 | a prefix that can run elsewhere is accepted if and only if no ret ends in it before there is room for a jump |
| HookUtils.AttachHook | src/JKA_YBEProxy/HookUtils/HookUtils.cpp:299-390 | memory, hook and status after the call are those of AttachOutcome, on every path |
| HookUtils.SaveAndRedirect | src/JKA_YBEProxy/HookUtils/HookUtils.cpp:370-384 | saves the bytes of the prefix, then only the prefix changes: a jump to the proxy and nops |
| HookUtils.WriteTrampoline | src/JKA_YBEProxy/HookUtils/HookUtils.cpp:337-368 | the trampoline is the copy with its relocation and a jump back, or the call is out of range |
| HookUtils.Relocate | src/JKA_YBEProxy/HookUtils/HookUtils.cpp:343-358 | the rel32 in the copy is aimed where the original goes, or out of range |
| HookUtils.Release | src/JKA_YBEProxy/HookUtils/HookUtils.cpp:360-378 | on a failure path memory is as before the allocation when the system takes it back, else the allocation stays |
| HookUtils.Attach | src/JKA_YBEProxy/HookUtils/HookUtils.hpp:107-118 | AttachOutcome with the redirected pointer, which is set only on Ok |
| HookUtils.DetachHook | src/JKA_YBEProxy/HookUtils/HookUtils.cpp:400-424 | the saved bytes are put back and the trampoline is released, or nothing changes when the code is not writable |
| HookUtils.Detach | src/JKA_YBEProxy/HookUtils/HookUtils.hpp:129-140 | DetachOutcome; the redirected pointer is cleared only on Ok |
| HookUtils.SuccessIs | src/JKA_YBEProxy/HookUtils/HookUtils.cpp:337-389 | an attach that succeeds has found a prefix, a trampoline and two jumps, and written these and nothing else |
| HookUtils.StatusIs | src/JKA_YBEProxy/HookUtils/HookUtils.cpp:299-390 | when each status is given: the first check that fails decides |
| HookMeaning.SomeProcessorIsX86Like | src/JKA_YBEProxy/HookUtils/HookUtils.cpp:149-155 | the assumptions about the processor can be met |
| HookMeaning.CallOrJmpCanBeHooked | src/JKA_YBEProxy/HookUtils/HookUtils.cpp:149-171 | on x86 a function that starts with a rel32 call or jmp is always accepted, once memory is allocated and writable |
| HookMeaning.AttachAttaches | src/JKA_YBEProxy/HookUtils/HookUtils.cpp:299-390 | a successful AttachHook gives what the theorems below require |
| HookMeaning.StepMoved | src/JKA_YBEProxy/HookUtils/HookUtils.cpp:107-118 | an instruction of the prefix that is not relocated does in the trampoline what it does in place, if and only if it does not jump into the middle of the prefix |
| HookMeaning.StepRelocated | src/JKA_YBEProxy/HookUtils/HookUtils.cpp:343-358 | a relocated call or jmp goes to its original destination, and a call returns to the jump back; the two programs correspond if and only if that destination is not in the middle of the prefix |
| HookMeaning.JumpIntoMiddleFaults | src/JKA_YBEProxy/HookUtils/HookUtils.cpp:107-118 | an accepted prefix that jumps into its own middle: it runs for ever in place, and faults through the trampoline |
| HookMeaning.StepBack | src/JKA_YBEProxy/HookUtils/HookUtils.cpp:339-341 | the jump at the end of the trampoline goes to the first instruction left in place |
| HookMeaning.StepSimulated | src/JKA_YBEProxy/HookUtils/HookUtils.cpp:299-390 | one step of the original program is one or two of the hooked one |
| HookMeaning.RunSimulated | src/JKA_YBEProxy/HookUtils/HookUtils.cpp:299-390 | a run of any length of the original program is followed by the hooked one, with the same data and destinations, until it enters the target again |
| HookMeaning.ReentryGoesToProxy | src/JKA_YBEProxy/HookUtils/HookUtils.hpp:97-105 | when it does, by a call or a jump from anywhere, the hooked program is at the target with the same data, and one step later at the proxy |
| HookMeaning.JumpIsTransparent | src/JKA_YBEProxy/HookUtils/HookUtils.cpp:380-383 | a proxy that is one jump to the trampoline passes its calls on |
| HookMeaning.HookIsInvisible | src/JKA_YBEProxy/HookUtils/HookUtils.hpp:97-105 | behind a proxy that does, the hooked program follows the original one for its whole run, recursion included |
| HookMeaning.TrampolineIsTheOriginal | src/JKA_YBEProxy/HookUtils/HookUtils.hpp:97-105 | calling the redirected pointer runs the original function until it is entered again: once past the prefix the two are at the same address |
| HookMeaning.TargetGoesToProxy | src/JKA_YBEProxy/HookUtils/HookUtils.cpp:380-383 | one step from the target is at the proxy with nothing else changed |
| HookMeaning.RestIsNops | src/JKA_YBEProxy/HookUtils/HookUtils.cpp:380-384 | the bytes of the prefix behind the jump to the proxy are nops |
| HookRuns.FailedAttach | src/JKA_YBEProxy/HookUtils/HookUtils.cpp:292-378 | after a failure the hook is as before, and memory is if and only if nothing was allocated or the release worked |
| HookRuns.SomeFailureAllocates | src/JKA_YBEProxy/HookUtils/HookUtils.cpp:371-378 | one failure after which memory is not as before: not writable and not released |
| HookRuns.DetachRestores | src/JKA_YBEProxy/HookUtils/HookUtils.cpp:400-424 | which result a detach gives, and that Ok and ReleaseFailed both put the saved bytes back |
| HookRuns.DetachUndoesAttach | src/JKA_YBEProxy/HookUtils/HookUtils.hpp:120-140 | attach then detach gives back the same memory and an unattached hook |
| HookRuns.AttachKeeps | src/JKA_YBEProxy/Engine/Patches.cpp:171-185 | an attach with any result keeps the invariant of the engine and of all hooks |
| HookRuns.DetachKeeps | src/JKA_YBEProxy/Engine/Patches.cpp:196-210 | so does a detach with any result |
| HookRuns.RunKeeps | src/JKA_YBEProxy/Engine/Patches.cpp:171-210 | so does any run of them, with what leaked along the way |
| HookRuns.EngineIsOriginalOutsideHooks | src/JKA_YBEProxy/Engine/Patches.cpp:187-194 | after any run the code is the original one but under attached hooks, whose saved bytes are the original ones |
| HookRuns.AllDetachedIsOriginal | src/JKA_YBEProxy/Engine/Patches.cpp:187-194 | once no hook is attached, memory is the original one and what leaked; the original one when nothing did |
| FilterStub.MakeFilterStub | src/JKA_YBEProxy/Engine/Patches.cpp:92-116 | the 42 bytes of the stub, with the call to the filter, are in the memory allocated for it; 0 and nothing written when there is none |
| FilterStub.FillFilterStub | src/JKA_YBEProxy/Engine/Patches.cpp:101-113 | the bytes written through the pointer, one after the other, are those 42 |
| FilterStub.WriteJumpToTrampoline | src/JKA_YBEProxy/Engine/Patches.cpp:136-140 | the last four bytes make it jump to the trampoline, the others stay |
| FilterStub.PacketEventFilter.Attach | src/JKA_YBEProxy/Engine/Patches.cpp:118-141 | status, hook and memory on every path; after Ok the function jumps to the stub and the stub to the trampoline |
| FilterStub.PacketEventFilter.Detach | src/JKA_YBEProxy/Engine/Patches.cpp:144-160 | nothing without a stub; else the hook is detached and the stub released whatever the answer |
| FilterStub.StubCallsFilter | src/JKA_YBEProxy/Engine/Patches.cpp:74-78 | the filter is entered with an exact copy of the six dwords, the engine's arguments and return address untouched |
| FilterStub.StubObeysFilter | src/JKA_YBEProxy/Engine/Patches.cpp:61-72 | whatever the filter wrote over its copy, the stub returns on 0, else enters the trampoline with the stack of the call |
| FilterStub.StubReleasedUnderHook | src/JKA_YBEProxy/Engine/Patches.cpp:144-160 | once the stub is gone, the code of the engine's function is its own again if and only if it was writable, and else still the jump |
| FilterStub.ReleasedStubFaults | src/JKA_YBEProxy/Engine/Patches.cpp:144-160 | after attach and detach, a call of the function jumps to unmapped memory and faults if and only if the code was not writable; else it runs as the original |
| FilterStub.SomeReleasedStubFaults | src/JKA_YBEProxy/Engine/Patches.cpp:144-160 | one world in which such a call faults, and would have run without the filter |
| RateLimit.LeakyBucket.Limit | src/JKA_YBEProxy/Engine/RateLimit.cpp:35-59 | the bucket and the answer are those of the function on values |
| RateLimit.LimitIsLeakyBucket | src/JKA_YBEProxy/Engine/RateLimit.cpp:35-59 | exactly when a request is admitted, and what it costs, on an unbounded clock behind the wrapping one |
| RateLimit.FutureTimeResets | src/JKA_YBEProxy/Engine/RateLimit.cpp:20-22 | a last time in the future resets the bucket |
| RateLimit.RateLimiter.Collect | src/JKA_YBEProxy/Engine/RateLimit.cpp:80-96 | the garbage collector, at most once a second, removes exactly the drained buckets |
| RateLimit.RateLimiter.BucketForAddress | src/JKA_YBEProxy/Engine/RateLimit.cpp:76-115 | the bucket of the address, a new one, or none when the table is full |
| RateLimit.RateLimiter.AddressAllowed | src/JKA_YBEProxy/Engine/RateLimit.cpp:119-142 | new state and answer of the per-address limit |
| RateLimit.RateLimiter.StatusAllowed | src/JKA_YBEProxy/Engine/RateLimit.cpp:145-163 | the outbound bucket is asked only after the one of the address |
| RateLimit.RateLimiter.RconAllowed | src/JKA_YBEProxy/Engine/RateLimit.cpp:167-188 | a valid password costs nothing, a bad one goes to the global bucket |
| RateLimit.ReachableIsCapped | src/JKA_YBEProxy/Engine/RateLimit.cpp:61-63 | every reachable state has at most 65536 buckets of at most 10 requests |
| RateLimit.PotentialRises | src/JKA_YBEProxy/Engine/RateLimit.cpp:35-115 | no request and no collection takes anything out of a bucket's debt, and an admitted one adds a period |
| RateLimit.RateIsBounded | src/JKA_YBEProxy/Engine/RateLimit.cpp:117-163 | in any run, a bucket admits at most 10 requests and one more for each period begun between the first and the last |
| RateLimit.CollectionKeeps | src/JKA_YBEProxy/Engine/RateLimit.cpp:80-96 | a collection takes exactly the buckets that are below empty, at most once a second, and changes nothing else |
| RateLimit.AddressAdmission | src/JKA_YBEProxy/Engine/RateLimit.cpp:117-142 | admitted if and only if the address has a bucket after the collection, or there is room for one, and it holds less than ten requests; what that costs, and that all else stays |
| RateLimit.StatusAdmission | src/JKA_YBEProxy/Engine/RateLimit.cpp:145-163 | admitted if and only if the address is and the outbound bucket has room, which a refused address leaves alone |
| RateLimit.RconAdmission | src/JKA_YBEProxy/Engine/RateLimit.cpp:167-188 | a valid password is admitted for nothing, a bad one if and only if the global bucket has room |
| RateLimit.FirstIsAdmitted | src/JKA_YBEProxy/Engine/RateLimit.cpp:117-163 | the first request of any address is admitted |
| RateLimit.EvictionLosesNothing | src/JKA_YBEProxy/Engine/RateLimit.cpp:84-95 | the next request of an evicted bucket is admitted either way, to one request; only the phase of the leak differs |
| ClientSimulation.DeltaStaysInBand | src/JKA_YBEProxy/Engine/NetStatus.cpp:164-197 | for every interval below 95 the delta stays in a band one frame wide, and the branches above 100 never run |
| ClientSimulation.GuardIsTight | src/JKA_YBEProxy/Engine/NetStatus.cpp:359-369 | at 95, the first interval that the guard refuses, the fast adjust does run |
| ClientSimulation.ClientTimeIsBounded | src/JKA_YBEProxy/Engine/NetStatus.cpp:191-192 | the client time never goes back nor passes the real time plus the top of the band |
| ClientSimulation.PhaseEnds | src/JKA_YBEProxy/Engine/NetStatus.cpp:132-198 | every phase ends by a frame given by the interval, the frame and the packet rate |
| ClientSimulation.SomethingIsRecorded | src/JKA_YBEProxy/Engine/NetStatus.cpp:201-203 | the divisors are positive, and every round trip is at least 0 and below the interval |
| ClientSimulation.FrameRecords | src/JKA_YBEProxy/Engine/NetStatus.cpp:134-162 | what one frame adds to the delays and the round trips, by the times of the frames and the interval alone |
| ClientSimulation.RoundTripsAre | src/JKA_YBEProxy/Engine/NetStatus.cpp:132-162 | the round trips of a phase are the ages of the newest snapshot at the first packet after it, and when a phase is done |
| ClientSimulation.DelaysAreBounded | src/JKA_YBEProxy/Engine/NetStatus.cpp:143-145 | every delay: behind by an interval and 5 ms at the least, by a frame and 1 ms more at the most |
| ClientSimulation.MeanDelayIsBounded | src/JKA_YBEProxy/Engine/NetStatus.cpp:201-203 | so is the mean, which is the sum of the delays over their number |
| ClientSimulation.RoundTripMeans | src/JKA_YBEProxy/Engine/NetStatus.cpp:201-203 | the mean age less half the time between two packets, not less than the least age; in [0, interval), and the least age for packets two intervals apart |
| ClientSimulation.SimulatedIsBounded | src/JKA_YBEProxy/Engine/NetStatus.cpp:100-104 | what is returned is below -5 and not below minus the frame, the interval and 6 |
| ClientSimulation.EndsOnce | src/JKA_YBEProxy/Engine/NetStatus.cpp:132 | the frame at which a phase ends is unique |
| ClientSimulation.DoneStays | src/JKA_YBEProxy/Engine/NetStatus.cpp:132 | a phase that is done would stay done |
| ClientSimulation.Arrivals | src/JKA_YBEProxy/Engine/NetStatus.cpp:134-140 | the inner loop counts the snapshots up to the real time and keeps the newest |
| ClientSimulation.AdjustInPlace | src/JKA_YBEProxy/Engine/NetStatus.cpp:164-189 | the new delta and flag are those of adjust_time_delta |
| ClientSimulation.SimulateClientLists | docs/netstatus-simulation.py:81-137 | the script gives the mean delay and the round trip of the simulated client |
| ClientSimulation.SimulateClient | src/JKA_YBEProxy/Engine/NetStatus.cpp:105-204 | the sums, counts and minimum of the C++ give the sum of the same two values |
| PacketRing.NetEstimate.PacketReceived | src/JKA_YBEProxy/Engine/NetStatus.cpp:263-265 | the ring holds the last 1024 packets of the history with one more |
| PacketRing.NetEstimate.CountPackets | src/JKA_YBEProxy/Engine/NetStatus.cpp:207-224 | the number of packets of the last second of the whole history, up to 1024, and their usercmds |
| PacketRing.RecentAreLast | src/JKA_YBEProxy/Engine/NetStatus.cpp:206 | the recent packets are exactly the last ones: walking back from the newest misses none |
| QString.Q_strncpyz | src/sdk/qcommon/q_string.cpp:145-152 | the buffer holds the text cut to its size, terminated |
| QString.Q_strcat | src/sdk/qcommon/q_string.cpp:155-171 | appends when everything fits, else changes nothing |
| QString.Q_stricmpn | src/sdk/qcommon/q_string.cpp:36-83 | the order of two strings without case up to n characters; a null pointer comes before every string and is equal to another |
| QString.Q_StripColor | src/sdk/qcommon/q_string.cpp:248-282 | the loop of passes terminates and leaves the normal form of the text |
| QString.StripPass | src/sdk/qcommon/q_string.cpp:256-280 | one in-place pass is the pass on strings, and removes something exactly when there is a colour code |
| QString.RewritingKeepsStripped | src/sdk/qcommon/q_string.cpp:241 | removing any one colour code keeps the normal form |
| QString.StrippedIsNormal | src/sdk/qcommon/q_string.cpp:241 | the normal form has no colour code, is its own normal form, and a text without code is its own |
| QString.OrderDoesNotMatter | src/sdk/qcommon/q_string.cpp:241 | removing codes in any order until none is left gives that same string |
| QString.StrippedIsReached | src/sdk/qcommon/q_string.cpp:241 | and some order reaches it |
| InfoStrings.Info_ValueForKey | src/sdk/qcommon/q_shared.cpp:80-138 | the value that a lookup in the list of pairs gives; an empty string for a null pointer |
| InfoStrings.LookupIsFirst | src/sdk/qcommon/q_shared.cpp:80-138 | which is that of the first pair with the key in any spelling, or nothing when there is none |
| InfoStrings.ReadPair | src/sdk/qcommon/q_shared.cpp:105-123 | the pair at a place and where the next one is, or none |
| InfoStrings.Info_NextPair | src/sdk/qcommon/q_shared.cpp:215-250 | the next pair and where it ends; true and nothing at the end of the pairs, false and no step at an empty key |
| InfoStrings.Info_RemoveKey | src/sdk/qcommon/q_shared.cpp:145-204 | cuts the first pair with exactly this key out of the buffer |
| InfoStrings.RemovePairs | src/sdk/qcommon/q_shared.cpp:145-204 | cutting the text removes that pair from the list and keeps the others |
| InfoStrings.RemoveFirstIs | src/sdk/qcommon/q_shared.cpp:145-204 | only the first pair with exactly that key goes |
| InfoStrings.Info_SetValueForKey | src/sdk/qcommon/q_shared.cpp:260-295 | the buffer and the result on every path: too long, refused, removed, no room, set |
| InfoStrings.NewPairInFront | src/sdk/qcommon/q_shared.cpp:283-292 | the printed pair is the first of the list |
| InfoStrings.SetResult | src/sdk/qcommon/q_shared.cpp:262-294 | exactly when a set succeeds, is refused, or does not return |
| InfoStrings.SetThenGet | src/sdk/qcommon/q_shared.cpp:252-259 | after a set the value reads back if and only if the pair fits, every other key reads as before |
| InfoStrings.CutIsStored | src/sdk/qcommon/q_shared.cpp:283-294 | a set that succeeds and stores its value cut |
| InfoStrings.SetOtherwise | src/sdk/qcommon/q_shared.cpp:268-289 | what a refused set and an empty value leave: the list is as before if and only if the characters were refused or no pair has the key |
| InfoStrings.RefusedSetForgets | src/sdk/qcommon/q_shared.cpp:277-289 | a set that is refused for want of room and has removed the old value |
| Userinfo.NameKey | src/JKA_YBEProxy/Features/Userinfo.cpp:144-160 | the buffer holds the name without colours and spaces |
| Userinfo.NamesLookAlike | src/JKA_YBEProxy/Features/Userinfo.cpp:144-160 | spaces do not count in a name, nor colour codes in one that fits in the buffer |
| Userinfo.CandidateFits | src/JKA_YBEProxy/Features/Userinfo.cpp:203-219 | a numbered name fits in its buffer, whatever the name |
| Userinfo.BaseIsAFront | src/JKA_YBEProxy/Features/Userinfo.cpp:203-213 | a numbered name starts with the first 29 characters of the name, less an escape at their end |
| Userinfo.CandidateKey | src/JKA_YBEProxy/Features/Userinfo.cpp:203-219 | its key is the key of the base and the number in brackets |
| Userinfo.CandidatesDiffer | src/JKA_YBEProxy/Features/Userinfo.cpp:215-219 | two numbered names have the same key, without case, only for the same number |
| Userinfo.OthersAreFewer | src/JKA_YBEProxy/Features/Userinfo.cpp:170-180 | there are at most 31 other names |
| Userinfo.InUseMeans | src/JKA_YBEProxy/Features/Userinfo.cpp:166-197 | a name is in use if and only if its key is, without case, that of the name of another client that is there |
| Userinfo.SomeCandidateIsFree | src/JKA_YBEProxy/Features/Userinfo.cpp:215-227 | so one of the 32 numbered names is free |
| Userinfo.UniqueName | src/JKA_YBEProxy/Features/Userinfo.cpp:162-228 | no other client that is there has a name that looks like the one it leaves, which is the name, or the one with the lowest free number |
| Userinfo.ForcePowersAreBad | src/JKA_YBEProxy/Features/Userinfo.cpp:340-398 | the loop refuses exactly what is not rank, side and at least 18 powers of 0 to 3 |
| Userinfo.ReadableForcePowers | src/JKA_YBEProxy/Features/Userinfo.cpp:335-403 | the first 29 characters are kept when the game can read them, else a default takes their place |
| Userinfo.SanitizeForcePowers | src/JKA_YBEProxy/Features/Userinfo.cpp:335-408 | the userinfo is the one with that value set, or it has no room; every other key reads as before |
| Userinfo.CountFields | src/JKA_YBEProxy/Features/Userinfo.cpp:100-121 | the loops count each field among the pairs before the first empty key |
| Userinfo.Validate | src/JKA_YBEProxy/Features/Userinfo.cpp:50-141 | the first problem of the userinfo, in the order of the checks |
| Userinfo.ValidMeans | src/JKA_YBEProxy/Features/Userinfo.cpp:50-141 | there is no problem if and only if the form is right and the counted pairs are within the limits of each field |
| Userinfo.ReasonIs | src/JKA_YBEProxy/Features/Userinfo.cpp:50-141 | when each reason is given, in the order of the checks and of the fields |
| Userinfo.ValidIsWithinLimits | src/JKA_YBEProxy/Features/Userinfo.cpp:10-17 | without an empty key, accepted are exactly the userinfos of the right form that as a whole hold no forbidden key and none twice |
| Userinfo.AcceptedWithinLimits | src/JKA_YBEProxy/Features/Userinfo.cpp:105-121 | an accepted userinfo is within the limits as a whole if and only if the pairs behind its first empty key fit in what the counted ones left |
| Userinfo.AnythingPassesBehindEmptyKey | src/JKA_YBEProxy/Features/Userinfo.cpp:105-121 | an accepted userinfo stays accepted with any tail that starts with an empty key, if and only if the tail keeps the form; its fields do not matter, and all are in the list |
| Userinfo.SomeAcceptedAreOverLimits | src/JKA_YBEProxy/Features/Userinfo.cpp:105-121 | one accepted userinfo with three names and a forbidden key |
| Bans.StringToFilter | src/JKA_YBEProxy/Features/Bans.cpp:44-108 | the filter of a text in either reading, or none |
| Bans.FilterMeans | src/JKA_YBEProxy/Features/Bans.cpp:44-108 | exactly which texts are filters, and what each filter compares |
| Bans.FilterReadBack | src/JKA_YBEProxy/Features/Bans.cpp:136-150 | a filter written as a line reads back |
| Bans.AddedIsSound | src/JKA_YBEProxy/Features/Bans.cpp:159-198 | used filters stay pairwise different and at most 1024, and the list has what it had and the new one |
| Bans.RemovedIsSound | src/JKA_YBEProxy/Features/Bans.cpp:201-227 | so they do after a removal |
| Bans.FileRoundTrip | src/JKA_YBEProxy/Features/Bans.cpp:16-18 | the written file fits in the buffer that reads it and gives back the used filters in order |
| Bans.SameAnswerAfterReload | src/JKA_YBEProxy/Features/Bans.cpp:16-18 | every address gets the same answer after a map change |
| Bans.ReadAddsWholeWords | src/JKA_YBEProxy/Features/Bans.cpp:289-306 | a file that is cut gives only whole words of it, and the first ones |
| Bans.CutGivesWholeWords | src/JKA_YBEProxy/Features/Bans.cpp:230-259 | a list that is cut gives only words of the list, and the first ones, if and only if no word is cut there |
| Bans.LegacyReadAddsWholeWords | src/JKA_YBEProxy/Features/Bans.cpp:314-323 | which the read of g_banIPs meets if and only if the cvar fits or no word is cut at its 255th character |
| Bans.LegacyCutIsWider | src/JKA_YBEProxy/Features/Bans.cpp:314-323 | a cvar whose ban of 152.12.*.* is added as 152.1.*.*, which bans another address |
| Bans.RemoveUndoesAdd | src/JKA_YBEProxy/Features/Bans.cpp:200-227 | removing what was added gives back the filters if and only if no earlier slot holds the legacy reading |
| Bans.LegacyIsTakenFirst | src/JKA_YBEProxy/Features/Bans.cpp:200-227 | adding and removing 152.0.0.0 frees 152.*.*.* and leaves the new filter |
| Bans.WithoutZeroIsUndone | src/JKA_YBEProxy/Features/Bans.cpp:210-212 | which is so for every text without a 0 |
| Bans.BannedMeansMatched | src/JKA_YBEProxy/Features/Bans.cpp:455-493 | a dotted address is banned exactly when some filter has each of its octets or a wildcard there |
| Bans.NoAddressIsNotBanned | src/JKA_YBEProxy/Features/Bans.cpp:447-455 | an address that does not start with a digit is never banned |
| Bans.BanList.AddIP | src/JKA_YBEProxy/Features/Bans.cpp:159-198 | the new list, and true exactly when the filter is then in it |
| Bans.BanList.RemoveIP | src/JKA_YBEProxy/Features/Bans.cpp:201-227 | the first slot with either reading is freed, and the file is then written if it opens |
| Bans.BanList.UpdateIPBans | src/JKA_YBEProxy/Features/Bans.cpp:116-156 | the file is one line for each used filter, or as before when it does not open |
| Bans.BanList.AddIPList | src/JKA_YBEProxy/Features/Bans.cpp:230-259 | adds each word of the list, cut to 63 characters |
| Bans.BanList.BeforeGameInit | src/JKA_YBEProxy/Features/Bans.cpp:262-327 | the list after a load is the file and then the legacy bans in the first 255 characters of their cvar, which is emptied, and which are written with the rest; a game that keeps its own list leaves file and cvar alone |
| Bans.BanList.IsBanned | src/JKA_YBEProxy/Features/Bans.cpp:447-496 | the loops answer whether some filter matches the parsed address |
| Tokenizer.CommandBuffer.TokenizeString2 | src/JKA_YBEProxy/Engine/Hooks/qcommon/cmd.cpp:21-123 | the buffer holds the tokens one after the other and never overflows |
| Tokenizer.CommandBuffer.SkipToToken | src/JKA_YBEProxy/Engine/Hooks/qcommon/cmd.cpp:49-76 | the loops over blanks and comments stop at the next token |
| Tokenizer.CommandBuffer.CopyToken | src/JKA_YBEProxy/Engine/Hooks/qcommon/cmd.cpp:84-117 | copies the token and its NUL behind what was written |
| Tokenizer.CommandBuffer.ArgumentsAreTokens | src/JKA_YBEProxy/Engine/Hooks/qcommon/cmd.cpp:81-97 | each argument is the terminated string of its token, right before the next one |
| Tokenizer.CommandBuffer.ArgsFrom | src/JKA_YBEProxy/Engine/Hooks/qcommon/cmd.cpp:148-163 | the arguments put together through Q_strcat |
| Tokenizer.TokensAreTokens | src/JKA_YBEProxy/Engine/Hooks/qcommon/cmd.cpp:99-115 | without quotes no token holds a blank or the start of a comment |
| Tokenizer.TokensAreCStrings | src/JKA_YBEProxy/Engine/Hooks/qcommon/cmd.cpp:84-117 | no token holds a NUL |
| Tokenizer.LineIsRead | src/JKA_YBEProxy/Engine/Hooks/qcommon/cmd.cpp:40-121 | the tokens of a line made of blanks, comments, plain and quoted words are its words; a plain word also ends at a quote, a quoted one only there |
| Tokenizer.EveryTextIsALine | src/JKA_YBEProxy/Engine/Hooks/qcommon/cmd.cpp:40-121 | every text is made like that, in both modes |
| Tokenizer.TokensAreWords | src/JKA_YBEProxy/Engine/Hooks/qcommon/cmd.cpp:21-121 | so the tokens of a text that fits in the buffer are its first 1024 words |
| Tokenizer.QuotedIsReadBack | src/JKA_YBEProxy/Engine/Hooks/qcommon/cmd.cpp:78-96 | any words without quotes, empty ones and ones with blanks included, put between quotes are tokenized to themselves |
| Tokenizer.JoinIsNotLonger | src/JKA_YBEProxy/Engine/Hooks/qcommon/cmd.cpp:148-163 | the tokens joined with spaces are no longer than the line |
| Tokenizer.JoinIsReadBack | src/JKA_YBEProxy/Engine/Hooks/qcommon/cmd.cpp:135-163 | tokens joined with spaces are tokenized to themselves |
| Tokenizer.ArgsTokenizeToThemselves | src/JKA_YBEProxy/Engine/Hooks/qcommon/cmd.cpp:135-163 | tokenizing what Cmd_ArgsFrom gives, quotes ignored, gives the same tokens, for every line |
| LinePrinter.PrintToClient | src/JKA_YBEProxy/Features/Cvars.cpp:176-221 | the commands print the text chunk after chunk, and each chunk ends a line, the text, or is 999 characters of a longer line |
| LinePrinter.FillChunk | src/JKA_YBEProxy/Features/Cvars.cpp:184-205 | as many whole lines as there is room for, or the start of a line that is longer |
| LinePrinter.ReplaceQuotes | src/JKA_YBEProxy/Features/Cvars.cpp:209-216 | every double quote of the chunk, and nothing else, becomes a single one |
| LinePrinter.CommandsFit | src/JKA_YBEProxy/Module/EngineApi.cpp:102-109 | no command is so long that it is dropped |
| LinePrinter.CommandIsTwoTokens | src/JKA_YBEProxy/Features/Cvars.cpp:207-219 | a command is tokenized to the word print and the whole chunk |
| LinePrinter.PrintsEverything | src/JKA_YBEProxy/Features/Cvars.cpp:176-221 | what the client shows is the whole text with its quotes replaced |
| Challenge.ComputeSipHash24 | src/JKA_YBEProxy/Engine/Challenge.cpp:39-69 | the loop over the words is SipHash-2-4 of the message |
| Challenge.ReferenceVector | src/JKA_YBEProxy/Engine/Challenge.cpp:71-72 | the published vector of SipHash-2-4 holds |
| Challenge.MessagesDiffer | src/JKA_YBEProxy/Engine/Challenge.cpp:105-120 | what is hashed tells apart addresses by number and port, and timestamps up to 2^32 |
| Challenge.AcceptsTheLastTwo | src/JKA_YBEProxy/Engine/Challenge.cpp:122-129 | Verify accepts exactly the challenges of the current and of the previous timestamp |
| Challenge.ValidForOneSlot | src/JKA_YBEProxy/Engine/Challenge.cpp:34-35 | a challenge is accepted from its address for 16.384 seconds |
| Challenge.AcceptedWhenHashesMeet | src/JKA_YBEProxy/Engine/Challenge.cpp:122-129 | a challenge from any address at any time is accepted if and only if SipHash gives the two messages the same 31 bits |
| Challenge.StaleOrForeignNeedsACollision | src/JKA_YBEProxy/Engine/Challenge.cpp:27-28 | an accepted challenge that is 32.768 seconds old, or of another address, is two different messages with the same 31 bits of SipHash |
| Challenge.PrintedWordIsScanned | src/JKA_YBEProxy/Engine/Challenge.cpp:88-98 | a word printed in 16 digits is scanned whole, whatever follows, in spite of the blanks, sign and 0x that a scan takes |
| Challenge.KeyRoundTrip | src/JKA_YBEProxy/Engine/Challenge.cpp:74-99 | the key printed to the cvar is the key scanned from it |
| Challenge.Challenges.LoadKey | src/JKA_YBEProxy/Engine/Challenge.cpp:81-103 | a key in the cvar is kept, else a random one is stored in it; the cvar then scans to the key |
| Challenge.Challenges.Create | src/JKA_YBEProxy/Engine/Challenge.cpp:105-120 | the challenge of the address and the timestamp under that key |
| Challenge.Challenges.Verify | src/JKA_YBEProxy/Engine/Challenge.cpp:122-129 | true exactly for what AcceptsTheLastTwo characterizes |
| Challenge.Challenges.Answer | src/JKA_YBEProxy/Engine/Challenge.cpp:131-134 | getchallenge answers with the challenge of now and stores nothing in the table |
| Challenge.Challenges.Find | src/JKA_YBEProxy/Engine/Challenge.cpp:143-156 | the first entry of the connect, or that there is none and the oldest entry |
| Challenge.Challenges.Admit | src/JKA_YBEProxy/Engine/Challenge.cpp:136-182 | which entry changes and how; nothing without an entry or a valid challenge; every entry in use was accepted when it came |
| Challenge.PingPasses | src/JKA_YBEProxy/Engine/Challenge.cpp:176-181 | the ping that an admitted entry shows passes both limits |
| Challenge.Challenges.ConnectAfterReload | src/JKA_YBEProxy/Engine/Challenge.cpp:74-76 | a challenge sent before the module is loaded anew admits a connect within 16.384 seconds |
| ClientMessages.Client.ExecuteCommand | src/JKA_YBEProxy/Engine/Hooks/server/sv_client.cpp:35-84 | an old command is passed over, the next one is run and recorded, a later one drops the client |
| ClientMessages.Client.UserMove | src/JKA_YBEProxy/Engine/Hooks/server/sv_client.cpp:98-206 | which usercmds are run in every state, and that they were counted beforehand from the same last usercmd |
| ClientMessages.MoveMeans | src/JKA_YBEProxy/Engine/Hooks/server/sv_client.cpp:98-206 | who runs no usercmds, and that any other client ends at the newest of the packet, having run only newer ones of it |
| ClientMessages.Client.RunMoves | src/JKA_YBEProxy/Engine/Hooks/server/sv_client.cpp:183-205 | the loop runs exactly the usercmds that are new, none later than the newest of the packet |
| ClientMessages.Client.SendGameState | src/JKA_YBEProxy/Engine/Hooks/server/sv_client.cpp:325-340 | a connected client becomes primed, any other stays, and its paks are to be checked again |
| ClientMessages.Client.ExecuteCommands | src/JKA_YBEProxy/Engine/Hooks/server/sv_client.cpp:272-287 | the new commands of a message are run in order, all of them unless the client is dropped |
| ClientMessages.OpsAreSplit | src/JKA_YBEProxy/Engine/Hooks/server/sv_client.cpp:272-297 | the commands come first in a message, and what follows them is not one |
| ClientMessages.Client.ExecuteClientMessage | src/JKA_YBEProxy/Engine/Hooks/server/sv_client.cpp:216-302 | keeps the invariant over any packets; says which messages are ignored, which commands run, and that the usercmds are run which the state after the commands allows |
| ClientMessages.MentionsMeans | src/JKA_YBEProxy/Engine/Hooks/server/sv_client.cpp:253-256 | the last command is searched for the word anywhere in it |
| ClientMessages.EachNumberOnce | src/JKA_YBEProxy/Engine/Hooks/server/sv_client.cpp:43-57 | under that invariant each number up to the last was run exactly once |
| ClientMessages.CommandsRunOnce | src/JKA_YBEProxy/Engine/Hooks/server/sv_client.cpp:43-57 | each command of the client runs once and in order if and only if no message leaves a gap to the last one, whatever is lost or repeated |
| ClientMessages.RunsIncrease | src/JKA_YBEProxy/Engine/Hooks/server/sv_client.cpp:186-205 | the usercmds run of a packet increase strictly, from the last one to at most the newest |
| ClientMessages.NewestRuns | src/JKA_YBEProxy/Engine/Hooks/server/sv_client.cpp:186-205 | the last usercmd of a packet runs unless it has been run |
| ClientMessages.LossIsRepaired | src/JKA_YBEProxy/Engine/Hooks/server/sv_client.cpp:90-92 | each usercmd of a stream runs once and in order if and only if no packet that arrives leaves a gap |
| ClientMessages.CountNewCommands | src/JKA_YBEProxy/Engine/NetStatus.cpp:251-261 | the loop counts the usercmds of the packet that are new and not after the newest |
| ClientMessages.CountIsUpperBound | src/JKA_YBEProxy/Engine/NetStatus.cpp:251-261 | no fewer are counted than run, and as many exactly when the counted ones have increasing times |
| ClientMessages.CountIsExact | src/JKA_YBEProxy/Engine/NetStatus.cpp:251-261 | which is so for a packet whose times strictly increase |
| PurePaks.IsGood | src/JKA_YBEProxy/Engine/Hooks/server/sv_client.cpp:763-853 | the check accepts if and only if each of the conditions of a pure client holds |
| PurePaks.ChecksumOfMore | src/JKA_YBEProxy/Engine/Hooks/server/sv_client.cpp:838-850 | the checksum of no sums is the feed, and each further one changes it by itself and by the count |
| PurePaks.ChecksumIgnoresOrder | src/JKA_YBEProxy/Engine/Hooks/server/sv_client.cpp:838-850 | the order of the sums does not matter to it |
| ClientMessages.Client.VerifyPaks | src/JKA_YBEProxy/Engine/Hooks/server/sv_client.cpp:719-865 | with sv_pure the client is authentic exactly then, else it is dropped; without, nothing changes |
| PurePaks.AreDistinct | src/JKA_YBEProxy/Engine/Hooks/server/sv_client.cpp:799-813 | the two loops find the same sum twice exactly when there is one |
| PurePaks.AreKnown | src/JKA_YBEProxy/Engine/Hooks/server/sv_client.cpp:825-836 | the two loops find an unknown sum exactly when there is one |
| PurePaks.DistinctAreFewer | src/JKA_YBEProxy/Engine/Hooks/server/sv_client.cpp:797-798 | different sums that are all in a list are not more than the list |
| PurePaks.PureListsNoMore | src/JKA_YBEProxy/Engine/Hooks/server/sv_client.cpp:710-714 | an accepted client lists no more paks than the server has, and only paks of the server |

## Left out

- The system: AllocateMemory, CodeWriter and ReleaseMemory are outcomes given as parameters, FreshAllocation says what a
  new allocation is, and a release that fails leaves memory as it is.
- Zydis: the decoder is any function from byte strings to one whole instruction of 1 to 15 bytes.
- HookMeaning.RunSimulated: assumes that nothing runs or jumps into the middle of the prefix (KeepsOut): no other run is
  simulated there, as the exact conditions of StepMoved and StepRelocated say. It assumes that data is apart from code,
  and that no instruction of the prefix reads its own return address; these follow from the processor having its data
  and its return addresses in places of their own.
- HookMeaning.StepSimulated, ReentryGoesToProxy, HookIsInvisible and TrampolineIsTheOriginal: under the same assumptions.
- HookMeaning.HookIsInvisible: of the proxies, only those that reach the trampoline with everything as it was; what
  another proxy does is its own affair.
- FilterStub.StubObeysFilter: the filter itself is any program that returns as cdecl says; it is not modelled.
- Patch, Patch_NOP_Bytes and InlinePatches, which write constants; the loops of Patches::Attach and Patches::Detach over
  their table, of which any run is covered by HookRuns.
- RateLimit: the printed messages, and Rate, which only clamps.
- ClientSimulation.SimulateClient: float and double are reals, so rounding is not modelled.
- FrameClock, SnapshotSent, Median3, GetRates and the estimate of PacketReceived: statistics over floats.
- PacketRing.NetEstimate.PacketReceived: only its ring of packets.
- The noisy networks, percentiles and tables of docs/netstatus-simulation.py.
- QString: characters are 8-bit codes; pointers are not null but in Q_stricmpn and Info_ValueForKey, which test for it.
- The name, model and colour checks of Sanitize, but for UniqueName and the force powers; the texts of the reasons of
  Validate are constructors.
- Bans.BanList.BeforeGameInit: the file is one text without a NUL, and whether it opens for writing is a parameter.
- Challenge.Challenges.LoadKey: random_device is a parameter; 0x without a digit behind it is no number, as the C standard
  says of scanf.
- Challenge.StaleOrForeignNeedsACollision: says nothing of how hard a collision is to find.
- Challenge.Challenges.Admit: the comparison of two base addresses is a parameter; what the original does with its table
  afterwards is not part of this model.
- ClientMessages.Client.UserMove: the delta key of the usercmds and the ping time of the frame; of a usercmd only its
  server time counts here.
- ClientMessages.Client.ExecuteClientMessage: counters are unbounded integers, so their overflow at 2^31 is not modelled.
- SV_ExecuteClientCommand, SV_ClientEnterWorld, SV_ClientThink, SV_SendClientSnapshot and SV_DropClient are not part of
  this model: the first may change the state of the client in any way that the message loop looks at, the others do
  what their contracts say.
- The rest of sv_client.cpp (downloads, userinfo changes, the contents of the game state).
- PurePaks: the sums are given as atoi reads them, and which paks are loaded is a parameter.
- Engine addresses, system calls, vmMain, votes, chat, console commands, msg.cpp, sv_main.cpp, sv_game.cpp and
  sv_snapshot.cpp: forwarding, or checks of one branch.
