# AutomataMP: verified models

This project models the self-contained algorithms of AutomataMP (a multiplayer
mod that hooks itself into a running game) in Dafny and proves what they keep
over whole runs. `dafny verify dfyconfig.toml` checks everything.

| file | models |
|---|---|
| `VehHook.dfy` | int3 breakpoints: installing, removing, the exception handler, over an array of code bytes |
| `VehHookRun.dfy` | a processor running over the hooked code; the invariant of every history of steps, installs and removals |
| `VehHookTransparency.dfy` | the hooked program against the unhooked one; how often callbacks run |
| `VehHookOverlap.dfy` | hooks that share addresses |
| `Crc32.dfy` | the bitwise CRC-32, RFC 1952's table form, error bursts |
| `ModuleList.dfy`, `ModuleSweep.dfy` | unlinking entries of the loader's module list during a walk; what the duplicate sweep leaves |
| `OriginalBytes.dfy` | recovering on-disk code bytes and the temporary unhook |
| `InputQueue.dfy`, `InputRuns.dfy` | per-frame batches of window messages; all interleavings of the two threads |
| `PresentChain.dfy`, `PresentRuns.dfy` | the Present slot shared with foreign overlays, the pointer hook and the re-entrancy guard |
| `Renderer.dfy`, `RendererRuns.dfy` | the hook watchdog and the D3D11/D3D12 choice |
| `DrawLists.dfy` | flattening draw lists into one pair of buffers |
| `Pattern.dfy` | byte patterns: text form and scanning |
| `Config.dfy` | configuration text and typed values |
| `MasterServer.dfy` | server heartbeats and expiry |

Code that changes state is a class or a method with the same loops and branches,
proved against a function on values; the theorems are about those functions.

## What the models show

* Breakpoints are transparent: for any number of hooks with disjoint addresses and
  no redirection, the executed instructions, the pc and the data are those of the
  unhooked program, whether it falls through, branches, calls or returns, as long
  as it executes no instruction with a hook address inside it; and the unhooked
  program's instructions are all reached, with at most one trap each. Callbacks
  are counted exactly by a two-state automaton over the executed addresses; on a
  target that falls through there is one for each execution.
* Removing hooks restores the code after any history. Hooks that overlap are
  allowed by the code, and removal, however long the program has run, then
  restores the code exactly when no hook was put on the target of an earlier one
  (`VehHookOverlap.RemoveRestoresIff`).
* The CRC detects every burst of up to 32 bits at any bit position; among bursts
  within 33 bits exactly the generator polynomial goes unseen. Leading zeros are
  seen, and a message with its checksum appended leaves a fixed register.
* The duplicate sweep leaves unique stems, but it can drop every copy of a module,
  because stems are also looked for in directory names
  (`ModuleSweep.LastCopyCanVanish`). A stem stays listed whatever the order of the
  list exactly when some modules it is found in are each exempt or have their own
  stem found among them only (`ModuleSweep.StemStaysIff`); that is so when the
  stems of modules that can be dropped occur in file names only.
* The recovered bytes undo a whole patch exactly when the patch has no gap of
  five bytes.
* Never more than two input batches are queued. A focus loss releases keys but not
  the queue: a key ends up stuck exactly when its last queued event is a key-down
  (`InputRuns.KeyStuckAfterFocusLossIff`).
* Whether a Present returns, crashes on a missing hook object or hangs among
  overlays is decided by following the saved pointers for as many steps as there
  are overlays (`PresentRuns.PresentReturnsIff`). It always returns when each
  overlay saves the slot once and our side takes its detour out before it renews
  or drops the pointer hook and drops it only while no overlay holds the detour;
  any other way of dropping it makes some later Present crash
  (`PresentRuns.DropIsSafeIff`). An overlay that saves the slot a second time can
  make a Present hang outside our guard (`PresentRuns.ResavingOverlaysCanLoop`).
  Hooking again above an overlay that already calls the detour suppresses every
  frame (`PresentRuns.HookKeepsFramesIff`), and a `hook` that fails after the
  present hook was placed leaves it placed
  (`PresentRuns.FailedHookLeavesDetourIff`).
* Rehook requests are more than eleven seconds apart and never hasty; a game that
  keeps presenting is never rehooked, one that stays stale is. At most one renderer is chosen. The unchosen renderer
  never keeps a hook exactly when no request finds the library of the hooked D3D12
  gone and no switch fails to unhook without hooking the same renderer anew
  (`RendererRuns.HooksStayApartIff`); only after such an accident can the hooks of
  both be in place.
* A typed integer wider than 32 bits is read back only when its value fits
  32 bits; otherwise the read throws (`Config.IntegerIsReadBackIff`).

## Model

| member | source | states |
|---|---|---|
| VehHook.Process.Hook | shared/utility/VehHook.cpp:75-109 | saves both bytes, the callback and the destination, plants the int3 and appends the record; a null address is refused and changes nothing |
| VehHook.Process.Remove | shared/utility/VehHook.cpp:59-69 | writes both saved bytes of every hook back in order and empties the list |
| VehHook.Process.Trap | shared/utility/VehHook.cpp:128-158 | the two arms of the handler: bytes, callback and redirected instruction pointer |
| VehHook.Process.Handler | shared/utility/VehHook.cpp:111-166 | handled exactly when some hook of some owner touches the address, and then the first such hook is applied; otherwise nothing changes |
| VehHookRun.TrapKeepsHooks | shared/utility/VehHook.cpp:124-160 | a trap keeps every hook armed, stepping or spent, restores the trapping byte, and re-arms at next |
| VehHookRun.InstallKeepsHooks | shared/utility/VehHook.cpp:80-106 | installing on unused addresses saves original bytes and keeps the invariant |
| VehHookRun.RemoveKeepsHooks | shared/utility/VehHook.cpp:59-69 | removing one owner's hooks keeps the invariant for the others |
| VehHookRun.RestoreAllBytes | shared/utility/VehHook.cpp:62-66 | writing original bytes back gives the original code on the hooks' addresses and leaves every other byte |
| VehHookRun.ApplyKeepsInv | shared/utility/VehHook.cpp:59-166 | every event keeps the invariant |
| VehHookRun.AnyHistoryIsUndone | shared/utility/VehHook.cpp:59-166 | after any history each hook is in one of its states, all other bytes are untouched, and removing all owners' hooks gives the original code |
| VehHookRun.InstalledHookTraps | shared/utility/VehHook.cpp:80-150 | the first trap after an install runs the callback if and only if one was given, goes on at the destination if and only if there is one, and has the original byte back |
| VehHookTransparency.TickSimulates | shared/utility/VehHook.cpp:128-158 | a handled trap is invisible; any other step is the same step of the unhooked machine |
| VehHookTransparency.HistoryIsTransparent | shared/utility/VehHook.cpp:75-166 | erasing the traps from any history leaves a run of the unhooked program: same instructions, pc and data, for any control flow that executes no instruction with a hook address inside it |
| VehHookTransparency.StartedUnhookedIsTransparent | shared/utility/VehHook.cpp:75-166 | the same from program start |
| VehHookTransparency.StrideEffect | shared/utility/VehHook.cpp:128-158 | one instruction with its trap: what is executed, whether the callback runs, and how the hook's state changes |
| VehHookTransparency.HooksNeverBlock | shared/utility/VehHook.cpp:128-160 | every run of the unhooked program is followed by the hooked one, with at most one trap per instruction |
| VehHookTransparency.TicksAreStrides | shared/utility/VehHook.cpp:128-160 | any number of processor steps is a number of instruction-with-trap strides, or one trap more |
| VehHookTransparency.CallbacksAreExpected | shared/utility/VehHook.cpp:128-158 | callbacks are exactly those of the armed/disarmed automaton over the executed addresses |
| VehHookTransparency.CallbackBounds | shared/utility/VehHook.cpp:134-157 | after any number of steps of the hooked machine its callbacks have not exceeded executions of the target, and a visit to next lies between two of them |
| VehHookTransparency.OneCallbackPerExecution | shared/utility/VehHook.cpp:134-157 | while the target falls through, an armed hook of the machine makes one callback for each execution of the target |
| VehHookTransparency.InstalledHookCallsOnce | shared/utility/VehHook.cpp:75-157 | from its install on, while the target falls through, a hook given a callback makes one for each execution and a hook given none makes none |
| VehHookOverlap.InstalledBytes | shared/utility/VehHook.cpp:89-97 | a hook saves what it reads, traps of earlier hooks included |
| VehHookOverlap.RemoveRestoresIff | shared/utility/VehHook.cpp:59-106 | after any run of the hooked program, removal restores the code if and only if no hook was put on the target of an earlier hook (or that byte was an int3 already) |
| Crc32.PolyValue | shared/utility/Crc32.cpp:11 | the polynomial's bits are those of 0xEDB88320 |
| Crc32.KnownChecksums | shared/utility/Crc32.cpp:4-15 | the register starts as 0xFFFFFFFF, and the checksums of nothing and of one zero octet are 0 and 0xD202EF8D |
| Crc32.LeadingZeroIsSeen | shared/utility/Crc32.cpp:3-16 | a leading zero octet always changes the checksum |
| Crc32.ResidueIsFixed | shared/utility/Crc32.cpp:3-16 | any message followed by its checksum leaves the register 0xDEBB20E3 |
| Crc32.MaskSelectsPoly | shared/utility/Crc32.cpp:11 | masking with the negated low bit is RFC 1952's conditional exclusive or |
| Crc32.EightTurns | shared/utility/Crc32.cpp:10-12 | the inner loop is eight bit steps |
| Crc32.ComputeCrc32 | shared/utility/Crc32.cpp:3-16 | the whole loop computes the checksum function |
| Crc32.StepsOfSum | shared/utility/Crc32.cpp:10-12 | bit steps are linear, and only shift words with zero low bits |
| Crc32.TableDrivenIsTheSame | shared/utility/Crc32.cpp:7-13 | the bit loop equals the table-driven update of RFC 1952, section 8 |
| Crc32.StepBackwards | shared/utility/Crc32.cpp:11 | the bit step is invertible, bit by bit from the high end |
| Crc32.BurstDetected | shared/utility/Crc32.cpp:3-16 | messages that differ only within 32 consecutive bits have equal CRCs only if they are equal |
| Crc32.FourByteBurstDetected | shared/utility/Crc32.cpp:3-16 | the same for four consecutive bytes |
| Crc32.BurstOf33 | shared/utility/Crc32.cpp:3-16 | within 33 bits exactly the generator itself goes undetected |
| ModuleList.Detach | shared/utility/Module.cpp:335-336 | taking an entry out keeps the circular doubly linked list; the entry's own links stay |
| ModuleList.GetModuleCount | shared/utility/Module.cpp:292-308 | counts the listed paths that contain the name |
| ModuleList.VisitForDuplicates | shared/utility/Module.cpp:319-340 | one callback of the sweep: exempt and unique entries stay, duplicates go, the walk can continue |
| ModuleList.UnlinkDuplicateModules | shared/utility/Module.cpp:260-341 | terminates, visits every original entry once in order, and leaves a ring of exactly the swept entries |
| ModuleList.Unlink | shared/utility/Module.cpp:229-247 | unlinks exactly the entries of one module; a null module changes nothing |
| ModuleSweep.SweepResult | shared/utility/Module.cpp:310-341 | the result is a subsequence, keeps the executable and system modules, and every other survivor is the only listed path with its stem |
| ModuleSweep.TwinsDoNotBothStay | shared/utility/Module.cpp:319-337 | of two modules with the same file name but for letter case and extension, not both stay unless they are protected |
| ModuleSweep.LoneModuleStays | shared/utility/Module.cpp:331-337 | a module whose stem occurs in no other listed path stays |
| ModuleSweep.SweepChangesNothingIff | shared/utility/Module.cpp:334-337 | nothing is dropped if and only if nothing is duplicated; a second sweep changes nothing |
| ModuleSweep.PathHasStem | shared/utility/Module.cpp:324-332 | a lower-cased path contains its own stem |
| ModuleSweep.StemOfPath | shared/utility/Module.cpp:324-332 | the stem is the lower-cased file name without directory and extension |
| ModuleSweep.WithoutLeavesOthers | shared/utility/Module.cpp:229-247 | unlinking a module leaves exactly the other entries, in order |
| ModuleSweep.StemStaysIff | shared/utility/Module.cpp:310-341 | a stem stays listed in every order of the list if and only if some of the modules it is found in are each exempt or have their stem found among them only |
| ModuleSweep.SweepLeavesACopy | shared/utility/Module.cpp:310-341 | when the stems of modules that are not exempt occur in file names only, every stem stays listed |
| ModuleSweep.LastCopyCanVanish | shared/utility/Module.cpp:302-336 | a concrete list on which a module is dropped though no path with its stem stays |
| OriginalBytes.GetOriginalBytes | shared/utility/Module.cpp:157-221 | returns the file's bytes up to the least position from which five bytes agree; nothing if that is the start; overruns exactly when there is none |
| OriginalBytes.WritingSettles | shared/utility/Module.cpp:194-214 | writing the bytes makes five more agree, leaves nothing for a second call, ends on a patched byte and touches nothing behind it |
| OriginalBytes.WholePatchUndoneIff | shared/utility/Module.cpp:196-214 | all differences are undone if and only if no patched byte is more than five behind the one before it |
| OriginalBytes.CreateUnhooked | src/hooks/D3D11Hook.cpp:43-74 | the create call runs on unpatched code and the code is afterwards as before, on success and on failure |
| OriginalBytes.RestoreOriginal | src/hooks/D3D11Hook.cpp:160-169 | the re-entrancy fix leaves the called code unpatched |
| InputQueue.Backend.FillBatch | src/automata-imgui/imgui_impl_win32.cpp:430-494 | what each message adds to the newest batch |
| InputQueue.Backend.WndProcHandler | src/automata-imgui/imgui_impl_win32.cpp:414-496 | opens a batch for a new frame or an empty queue, fills it, and releases keys on focus loss |
| InputQueue.Backend.ResetKeyStates | src/automata-imgui/imgui_impl_win32.cpp:68-90 | clears the modifiers and the mouse position, releases every key and button, and nothing else |
| InputQueue.Backend.NewFrameApply | src/automata-imgui/imgui_impl_win32.cpp:332-355 | applies and drops the oldest batch |
| InputQueue.Backend.NewFrameCount | src/automata-imgui/imgui_impl_win32.cpp:370-391 | takes the modifiers from the system and the keys that are down, reads the mouse, and counts the frame modulo 2^64 |
| InputRuns.QueueIsBounded | src/automata-imgui/imgui_impl_win32.cpp:332-355 | in every interleaving at most two batches are queued, at most one in the middle of a frame |
| InputRuns.TwoBatchesOccur | src/automata-imgui/imgui_impl_win32.cpp:423-426 | the bound is reached |
| InputRuns.MessageReachesInput | src/automata-imgui/imgui_impl_win32.cpp:430-494 | what each message does to the keys, the five buttons, the characters, the wheels and the modifiers once it is applied |
| InputRuns.FrameReadsModifiers | src/automata-imgui/imgui_impl_win32.cpp:370-391 | a modifier is on if the system says so or one of its three keys is down |
| InputRuns.Conserved | src/automata-imgui/imgui_impl_win32.cpp:335-354 | in any channel, delivered then queued events are the posted ones in order |
| InputRuns.InputIsConserved | src/automata-imgui/imgui_impl_win32.cpp:335-348 | the same for keys, buttons and characters; the input characters are the delivered ones |
| InputRuns.WheelIsConserved | src/automata-imgui/imgui_impl_win32.cpp:350-351 | both wheel totals are conserved |
| InputRuns.AppliedBySecondFrame | src/automata-imgui/imgui_impl_win32.cpp:332-355 | whatever is posted is delivered by the second frame after it |
| InputRuns.KeysFollowEvents | src/automata-imgui/imgui_impl_win32.cpp:338-344 | without releases, each key and button is as its last delivered event left it |
| InputRuns.KeyStuckAfterFocusLossIff | src/automata-imgui/imgui_impl_win32.cpp:478-480 | after a focus loss a key ends up down if and only if its last queued event is a key-down |
| PresentChain.PointerHook.Make | shared/utility/PointerHook.cpp:8-28 | saves the slot's pointer and replaces it; a null or inaccessible slot is refused and left alone |
| PresentChain.PointerHook.Remove | shared/utility/PointerHook.cpp:34-46 | puts the saved pointer back only if the slot is still ours, and fails only if it then cannot be written |
| PresentChain.PointerHook.Restore | shared/utility/PointerHook.cpp:48-60 | makes the slot ours again, and fails only if it is not and cannot be written |
| PresentChain.D3DHook.Hook | src/hooks/D3D11Hook.cpp:78-92 | drops the old pointer hook, then places a new one, with the failure cases of both constructors |
| PresentChain.D3DHook.Unhook | src/hooks/D3D11Hook.cpp:102-115 | removes the pointer hook if hooked, keeping the object; stays hooked when a removal fails |
| PresentChain.D3DHook.Present | src/hooks/D3D11Hook.cpp:120-199 | terminates or crashes as the chain says, runs the recorded events, leaves the guard as it was and both flags clear, although the callback may unhook or rehook |
| PresentChain.D3DHook.CallFn | src/hooks/D3D12Hook.cpp:355-422 | a call through any pointer of the chain: events, result, guard and flags |
| PresentRuns.LeadsIff | src/hooks/D3D11Hook.cpp:174-181 | saved pointers lead somewhere if and only if they do so within as many steps as there are overlays |
| PresentRuns.SettlesIff | src/hooks/D3D11Hook.cpp:174-181 | whether saved pointers leave the overlays at all shows within that many steps |
| PresentRuns.PresentReturnsIff | src/hooks/D3D11Hook.cpp:120-189 | a Present returns if and only if the pointers from the slot settle and, on our detour, there is a hook object and those from its saved pointer settle, not on a detour that has lost its object; it crashes exactly when an object is missing |
| PresentRuns.PresentEffects | src/hooks/D3D11Hook.cpp:174-193 | each callback runs once if the detour is reached and never otherwise; the real Present at most once, exactly when the chain reaches it |
| PresentRuns.PresentResult | src/hooks/D3D11Hook.cpp:169-199 | the result is the real function's if it was reached, else the last one if suppressed and success if ignored |
| PresentRuns.IgnoredPresent | src/hooks/D3D11Hook.cpp:179-185 | a Present ignored by the callback runs both callbacks, nothing else, and succeeds |
| PresentRuns.PutInIsSeen | src/hooks/D3D11Hook.cpp:78-92 | after hooking, hooking anew or restoring, every Present that returns calls back first and once |
| PresentRuns.TakenOutIff | src/hooks/D3D11Hook.cpp:102-115 | unhooking or dropping leaves the detour in the slot if and only if it was there and could not be written, or had been saved itself; otherwise the saved pointer is back, and a slot not ours is left alone |
| PresentRuns.UnhookedAgain | src/hooks/D3D11Hook.cpp:85-115 | hooking and unhooking gives the slot back, and a Present calls back only through an overlay that leads to the detour |
| PresentRuns.OverlayLeadsOn | shared/utility/PointerHook.cpp:26-27 | an overlay leads where the slot led before it |
| PresentRuns.EveryPresentReturns | src/hooks/D3D12Hook.cpp:352-422 | after any history of our and the overlays' operations, and any inside the callback, a Present returns when overlays save the slot once and our side renews and drops its hook carefully |
| PresentRuns.DropIsSafeIff | src/AutomataMP.cpp:216-291 | every later Present returns after dropping the pointer hook if and only if no overlay held the detour and it could be taken out of the slot |
| PresentRuns.OrphanedDetourCrashes | src/AutomataMP.cpp:216-245 | a concrete history in which hooking anew fails under an overlay and a Present crashes |
| PresentRuns.ResavingOverlaysCanLoop | shared/utility/PointerHook.cpp:26-27 | a concrete history in which an overlay saves the slot twice and a Present never returns |
| PresentRuns.HookKeepsFramesIff | src/hooks/D3D11Hook.cpp:78-86 | after hooking, frames reach the real Present if and only if the slot without our detour led there |
| PresentRuns.FailedHookLeavesDetourIff | src/hooks/D3D11Hook.cpp:85-114 | a failed hook and the unhook after it leave the detour in the slot exactly when the present hook had been placed or the old detour could not be taken out |
| Renderer.AutomataMP.HookD3D11 | src/AutomataMP.cpp:216-246 | the choice after hooking D3D11 |
| Renderer.AutomataMP.HookD3D12 | src/AutomataMP.cpp:248-291 | the choice after hooking D3D12, with both fallbacks to D3D11 |
| Renderer.AutomataMP.WatchPresent | src/AutomataMP.cpp:57-88 | the last-chance timer and the rehook request |
| Renderer.AutomataMP.WatchMessages | src/AutomataMP.cpp:90-126 | the window message hook check |
| Renderer.AutomataMP.HookMonitor | src/AutomataMP.cpp:39-128 | one pass of the monitor |
| Renderer.AutomataMP.Initialize | src/AutomataMP.cpp:1022-1210 | nothing when already initialized; else the sixty-call wait, the switch of renderers on a null device, and the rest of start-up |
| Renderer.AutomataMP.OnFrame | src/AutomataMP.cpp:352-380 | a frame initializes, renews the message hook or falls back to uninitialized |
| Renderer.AutomataMP.OnPostPresent | src/AutomataMP.cpp:431-447 | the present time moves to the later reading only when it is not in the future |
| RendererRuns.ChoiceIsOkInEveryRun | src/AutomataMP.cpp:216-291 | never both renderers, valid exactly when one is chosen, the chosen one hooked, and no fall-through ever reached |
| RendererRuns.RequestChooses | src/AutomataMP.cpp:71-76 | which renderer a request leaves chosen, for every outcome of hooking |
| RendererRuns.SwitchChooses | src/AutomataMP.cpp:1049-1136 | which renderer a switch leaves chosen, for every outcome of hooking |
| RendererRuns.HookIsLeftIff | src/AutomataMP.cpp:248-291 | an event leaves a hook on the unchosen renderer if and only if it is a request that finds the library of the hooked D3D12 gone, or a switch whose unhook fails and which does not hook the same renderer anew |
| RendererRuns.HooksStayApartIff | src/AutomataMP.cpp:1049-1136 | in every run from start-up, no unchosen renderer is ever hooked if and only if neither happens, and then never both renderers are |
| RendererRuns.BothInstalledIff | src/AutomataMP.cpp:216-291 | for every single event and any leftover hook, exactly when the second renderer's hook gets in place beside the first |
| RendererRuns.NothingDuringTheWait | src/AutomataMP.cpp:1029-1037 | no frame switches renderers or finishes start-up during the wait, whatever the monitor does, and each frame shortens it by one |
| RendererRuns.SixtyFramesPass | src/AutomataMP.cpp:1029-1037 | from the start sixty frames initialize nothing, the next one can, and after a reset one can at once |
| RendererRuns.FrameInitializesIff | src/AutomataMP.cpp:352-380 | exactly when a frame leaves the framework initialized, and with which window and message hook |
| RendererRuns.SecondSwitchAtOnceIff | src/AutomataMP.cpp:1050-1051 | right after a switch the next frame can switch again if and only if a reset intervened |
| RendererRuns.WatchdogIsPatient | src/AutomataMP.cpp:57-88 | the present time never decreases, requests are more than 11 seconds apart, and each follows an earlier stale pass by more than a second |
| RendererRuns.LastPresentIsLatest | src/AutomataMP.cpp:433-446 | the recorded present is the latest Present event of the run |
| RendererRuns.PresentingGameIsLeftAlone | src/AutomataMP.cpp:57-88 | a run whose passes all come within five seconds of a present makes no request |
| RendererRuns.StoredPresentIsFresh | src/AutomataMP.cpp:433-446 | a pass within five seconds of a stored present gives a new last chance |
| RendererRuns.LeewayAfterRequest | src/AutomataMP.cpp:78-83 | no pass within ten seconds of a request asks for anything |
| RendererRuns.MonitorWaitsForPresent | src/AutomataMP.cpp:52-55 | while a Present is being made a pass changes nothing |
| RendererRuns.StaleGameIsRehooked | src/AutomataMP.cpp:57-84 | two passes more than a second apart on a game that stays stale lead to a request, with any messages, frames and resets in between |
| RendererRuns.LostMessagesAreNoticed | src/AutomataMP.cpp:90-121 | a window without messages gets a new message hook requested, or a new D3D hook, within two passes more than a second apart |
| RendererRuns.MessagingWindowIsLeftAlone | src/AutomataMP.cpp:90-98 | passes within five seconds of a message, or that see the hook intact, request no message hook |
| RendererRuns.TestComesFirst | src/AutomataMP.cpp:100-124 | no message hook is requested at the pass after one that found messages fresh |
| RendererRuns.RequestedHookIsRenewed | src/AutomataMP.cpp:368-370 | the next frame of an initialized framework renews the requested message hook |
| DrawLists.FrameResources.Grow | src/automata-imgui/imgui_impl_dx12.cpp:144-190 | on success both buffers hold the totals; a failed creation leaves the buffer null |
| DrawLists.FetchIsOwn | src/automata-imgui/imgui_impl_dx12.cpp:244-249 | a draw with the running offsets fetches the vertices it would fetch from its own list |
| DrawLists.ScissorCoversClip | src/automata-imgui/imgui_impl_dx12.cpp:238-240 | a scissor covers exactly the pixels of its clip rectangle; D3D12 leaves out a draw if and only if that covers none or has no texture, D3D11 none |
| DrawLists.CommandMeans | src/automata-imgui/imgui_impl_dx12.cpp:227-246 | what each command adds to the picture, a draw one vertex for each of its indices |
| DrawLists.Upload | src/automata-imgui/imgui_impl_dx12.cpp:202-209 | every copy fits and the buffers begin with all lists in order |
| DrawLists.IssueDraws | src/automata-imgui/imgui_impl_dx12.cpp:218-250 | what is issued renders, command by command, what the lists mean on their own |
| DrawLists.RenderDrawData | src/automata-imgui/imgui_impl_dx11.cpp:98-258 | a render that issues anything renders exactly the meaning of the lists; otherwise nothing is issued |
| Pattern.BuildPattern | shared/utility/Pattern.cpp:64-96 | parses the text without its spaces |
| Pattern.SpelledParses | shared/utility/Pattern.cpp:71-93 | any spelling of a pattern, in either case, is read as that pattern |
| Pattern.LeftoverIsDropped | shared/utility/Pattern.cpp:74-79 | a single character left over at the end is dropped |
| Pattern.PrintedPatternIsReadBack | shared/utility/Pattern.cpp:64-96 | a pattern spelled in either case with spaces put in anywhere is read back, and every pattern can be spelled |
| Pattern.Find | shared/utility/Pattern.cpp:33-62 | any result is a match, and every match passed over has an unreadable byte among the pattern-length-minus-one bytes before it |
| Pattern.NothingHiddenWhenReadable | shared/utility/Pattern.cpp:41-56 | in readable memory the bytes that agree outside the wildcards are a match, none is passed over, so the least one is found |
| Pattern.ScanStaysInRangeIff | shared/utility/Pattern.cpp:35 | the scan stays in its range if and only if the range does not end below the pattern's length |
| Pattern.ScanReverse | shared/utility/Scan.cpp:34-48 | the highest match in the range; a range longer than its start is not scanned |
| Pattern.ScanDisasm | shared/utility/Scan.cpp:154-170 | the first of the given instructions that starts with the pattern |
| Config.Config.SetValue | shared/utility/Config.cpp:67-71 | stores only non-empty keys and values |
| Config.Config.GetValue | shared/utility/Config.cpp:57-65 | the stored value for a key that is present, nothing for any other |
| Config.Config.Load | shared/utility/Config.cpp:18-41 | loads the lines of the file on top of the present values |
| Config.Config.Save | shared/utility/Config.cpp:43-55 | writes every key once, as key, equals sign, value |
| Config.SavedTextLoadsBackIff | shared/utility/Config.cpp:29-52 | saving and loading gives the same map if and only if no key or value is empty or has a newline and no key has an equals sign |
| Config.IntegerIsReadBackIff | shared/utility/Config.hpp:25-44 | a typed integer is read back if and only if it fits the 32-bit conversion; otherwise reading throws |
| Config.WrittenInDecimal | shared/utility/Config.hpp:69-73 | integers are written in decimal with a minus sign in front |
| Config.HandWrittenIsRead | shared/utility/Config.hpp:33-40 | a number is read with blanks and a plus sign before it and anything but a digit after it |
| Config.NegativeAsUnsigned | shared/utility/Config.hpp:34-36 | a negative number read as unsigned wraps around |
| Config.CastWraps | shared/utility/Config.hpp:33-40 | a narrower type keeps the number modulo its width |
| Config.BoolIsReadBack | shared/utility/Config.hpp:48-64 | a boolean that was set is read back, and only the two words are booleans |
| MasterServer.MasterServer.CleanDeadServers | server/automatamp/MasterServer.go:36-51 | within five seconds of the last cleaning nothing; otherwise exactly the servers silent for more than sixty seconds go |
| MasterServer.MasterServer.Heartbeat | server/automatamp/MasterServer.go:55-85 | enters or updates the sender, with its name cut to 64, then cleans; a bad body changes nothing |
| MasterServer.MasterServer.List | server/automatamp/MasterServer.go:87-94 | cleans, then returns the map |
| MasterServer.ListedIff | server/automatamp/MasterServer.go:36-85 | a server is listed, with its latest data, if and only if its latest heartbeat was at most sixty seconds old at the latest cleaning |
| MasterServer.CleanedEveryFiveSeconds | server/automatamp/MasterServer.go:36-51 | exactly which requests clean the map |
| MasterServer.ListingIsFresh | server/automatamp/MasterServer.go:62-94 | a listing holds every server heard from within 60 seconds and none silent for 65 or more, with the data of its latest heartbeat and its name cut to 64 |

## Left out

- VehHookTransparency.HistoryIsTransparent: the hooked program runs on one thread, does not write its own code, and callbacks do not change its registers; hooks with a destination redirect on purpose and are covered by the byte invariant only.
- VehHookRun.AnyHistoryIsUndone: `~VehHook` (remove, then leave the list) and failing page protection are not modelled.
- Crc32.ComputeCrc32: a 32-bit word is the sequence of its bits, not a machine integer.
- ModuleList.UnlinkDuplicateModules: entries and names are readable, names fit MAX_PATH, and lower-casing is a function on characters; drive and stream colons in `path::stem` are not modelled.
- OriginalBytes.GetOriginalBytes: locating the module, its file and the section of the address is one optional input.
- InputQueue.Backend.WndProcHandler: mouse capture, cursor and gamepad messages only open a batch; a missing ImGui context is not modelled; wheel distances are real numbers.
- PresentChain.D3DHook.Present: the swap chain bookkeeping is left out, and one hook object stands for the renderer's; replacing the object while its own callback runs is not modelled. A call that never returns has no contract; `PresentRuns` says exactly when that is.
- Renderer.AutomataMP.HookMonitor: the framework exists, and each hook's own success, the library and the null device are inputs.
- RendererRuns.StaleGameIsRehooked: while lost window messages keep postponing the present time, a request can be delayed; those passes are excluded by the state of the message timers.
- DrawLists.RenderDrawData: mapping always succeeds; choosing the D3D12 frame's resources and saving D3D11 state are left out.
- Pattern.Find: addresses are not wrapped while stepping, only in the computation of the end; none wraps when the range lies in the address space and does not end below the pattern's length.
- Pattern.ScanReverse: a search down to address 0 is required to have a match; without one the unsigned comparison never ends the loop at 0.
- Config.Config.Save: the keys come in some order rather than in the map's own; text-mode newlines and floating-point values are left out.
- MasterServer.MasterServer.Heartbeat: a request happens at one instant and the pointer to the player count is a number.
- The guards of ResizeBuffers and ResizeTarget: the same pattern as Present.
- The search for the command queue offset, relative references, `calculate_absolute` and the section lookup: single loops without properties across them.
- Patch, FunctionHook, VtableHook, Memory, WindowsMessageHook: easier variants of what is modelled.
- `spoof_module_paths_in_exe_dir`, Registry, HttpClient, Thread, RTTI, the SDK headers, ImGui drawing, fonts and the game-specific mods: system calls, foreign memory or data.
- The game server and its packet handlers: not part of this model.
