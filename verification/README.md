# Verified model of Snitch tooling

This project models five parts of the Snitch repository in Dafny and proves what they are for.

1. **Address-map routing** (`AddrMapGraph`, `AddrMapTable`, `AddrMapDelivery`, `AddrMapNodeTable`, `AddrMap`). The SoC
   generator describes its interconnect as a directed graph of crossbar nodes and memory leaves, with cycles, and computes
   a routing table for each node on its own. The model proves that the recursive search enumerates
   simple paths, that the neighbour-only collision check is exact for non-empty ranges and for no others, that table
   compression keeps the meaning and is optimal, that following the independently computed tables hop by hop delivers
   every owned address to its leaf along a shortest path, and exactly when a cached table stays right.
2. **Multi-hart synchronisation of the simulator** (`ClusterBarrier`, `WakeUp`, `ClusterInterrupt`, `InterruptWakeUp`,
   `Scratchpad`).
   Protocols are state machines whose steps are the atomic accesses or critical sections of the code,
   interleaved freely over any number of harts. Beside each machine stands the shared record or register as a
   class whose methods are those steps, updated in place and tied to the machine.
3. **The FREP sequencer of the trace tool** (`Sequencer`, `SequencerTrace`). An online emulation over several FIFOs is
   shown to issue exactly the unrolled program, and the bookkeeping around it to account for every instruction.
   `FloatDecode` models the bit-pattern decoder of the same tool.
4. **Semaphores and peripheral windows** (`Peripherals`).
5. **Mask-based memory regions** (`PmaRegions`).

`IntBits` holds bitwise arithmetic on unbounded integers (Python's integers, and machine words as the naturals
below a power of two); `Counting` holds counts and sums over harts; `Common` holds two datatypes.

Notes on reading the model:

- Address-map entries are indices into one sequence; the index stands for the `id` every entry is given on creation.
- Deques are written oldest first: adding at the left appends, popping at the right takes the first element.
- Weak memory ordering is not modelled: steps are sequentially consistent.
- Where a promise fails on some inputs, a lemma gives the exact condition under which it holds: empty address ranges
  (`AddrMapTable.CheckExactIffPositive`, and on graphs `AddrMapDelivery.SizesMustBePositive`), tables cached before a
  later attachment (`AddrMapDelivery.CacheSafeIffUnreached`), accesses that cross a word (`Scratchpad.LoadRightIffInside`,
  `Scratchpad.StoreRightIffInside`), clusters of more than 32 cores (`ClusterInterrupt.OwnBitsIffSmall`), sequencer calls
  that come before their inputs (`Sequencer.FrepRefinement`), and the warning about unsequenced instructions, whose
  number also counts FREPs with a waiting configuration (`SequencerTrace.LooseEndsExact`).

`dafny verify dfyconfig.toml` checks everything.

## Model

| member | source | states |
|---|---|---|
| AddrMapGraph.RangesEnumerateSimplePaths | util/solder/solder.py:149-171 | on any finite graph, cyclic or not, the search returns exactly one route per simple path (by attachment positions) from the entry to a leaf base that avoids `seen`, in the order of attachment, and the depth is the number of nodes on the path |
| AddrMapGraph.RangesMembership | util/solder/solder.py:94-112 | a route is found if and only if some simple path stands for it |
| AddrMapGraph.Shorten | util/solder/solder.py:152-155 | breaking recursion on seen nodes loses nothing: every path has a simple one, no longer, to the same base through a subset of its nodes |
| AddrMapGraph.MinimumDepthIsDistance | util/solder/solder.py:160-164 | the least depth among the routes to a leaf is the length of a shortest path to it, simple or not |
| AddrMapTable.StableSortCorrect | util/solder/solder.py:186-187 | the sort orders by lower address, permutes, and keeps the order of equal lower addresses |
| AddrMapTable.CollapseSound | util/solder/solder.py:192-218 | on any list at all: what is kept are given routes with one of least depth for each key, and a raised collision is one between two given routes |
| AddrMapTable.CollisionCheckExact | util/solder/solder.py:192-218 | on non-empty ranges, comparing each route with the last kept one raises if and only if some two routes with different (lo, hi, target) overlap; otherwise the kept list is ordered, hence disjoint, and has a route of least depth for each key |
| AddrMapTable.EmptyRangeHidesCollision | util/solder/solder.py:199-215 | a range of any width s <= 0 between two overlapping ones hides their overlap from the check |
| AddrMapTable.CheckExactIffPositive | util/solder/solder.py:192-218 | the check is exact on all sorted lists whose ranges are non-empty or of width s if and only if s is positive |
| AddrMapTable.CollapseKeepsFirst | util/solder/solder.py:196-206 | of routes with the same address range and target, the one kept is the first of the least deep ones in the sorted list |
| AddrMapTable.FirstCollisionReported | util/solder/solder.py:207-215 | the collision that is raised names the first route in sorted order that conflicts with an earlier one, and a route before it that it conflicts with |
| AddrMapTable.CompressGroups | util/solder/solder.py:226-242 | each table entry spans a maximal run of kept routes with one port, from the first lower to the last upper address; a run of one is the route itself |
| AddrMapTable.CompressKeepsTargets | util/solder/solder.py:295-304 | unifying routes neither loses, adds nor reorders targets |
| AddrMapTable.CompressOrdered | util/solder/solder.py:231-242 | the compressed table is ordered and disjoint, as the comment in the code claims |
| AddrMapTable.CompressPreservesLookup | util/solder/solder.py:224-242 | every address a kept route decodes is sent to the same port by the compressed table |
| AddrMapTable.CompressOptimal | util/solder/solder.py:224-242 | no table of non-overlapping entries that agrees on those addresses has fewer entries |
| AddrMapDelivery.RouteToPath | util/solder/solder.py:180-184 | each route of a node is a simple path that starts through the route's port |
| AddrMapDelivery.PathToRoute | util/solder/solder.py:180-184 | each path from a node is matched by a route to the same base that is no deeper |
| AddrMapDelivery.TableIfClashFree | util/solder/solder.py:176-248 | whatever the leaf sizes, a node that reaches a leaf base has a table if no two of its paths clash |
| AddrMapDelivery.GetRoutesSucceeds | util/solder/solder.py:176-248 | where all reachable leaves have positive sizes, a table exists if and only if the node reaches a leaf base and no two of its paths clash |
| AddrMapDelivery.SuccessIsInherited | util/solder/solder.py:176-248 | where all reachable leaves have positive sizes, if a node has a table, so has every node reachable from it that reaches a leaf base |
| AddrMapDelivery.HopIsCloser | util/solder/solder.py:189-206 | where all reachable leaves have positive sizes, the table sends an address owned by a reachable leaf to an attached entry exactly one node closer to that leaf, which is the leaf or has a table again |
| AddrMapDelivery.Delivery | util/solder/solder.py:149-248 | hop-by-hop forwarding, where all reachable leaves have positive sizes: after k hops through independently computed tables the distance to the owning leaf is exactly k less, so the address never loops and arrives at the leaf after the shortest number of hops |
| AddrMapDelivery.SizesMustBePositive | util/solder/solder.py:103-112 | for graphs whose leaf sizes are positive or s: each of the exactness of the check, the inheritance of tables and delivery holds on all of them if and only if s is positive |
| AddrMapNodeTable.TableIffUnambiguous | util/solder/solder.py:176-215 | where all reachable leaves have positive sizes, a node has a table if and only if it reaches a leaf base and no address is owned by two leaves or by two different base addresses; it fails for want of routes exactly if it reaches no leaf base |
| AddrMapNodeTable.TableIsCompressed | util/solder/solder.py:224-248 | the entries of a node's table are ordered and disjoint, each begins and ends with an owned address that goes to its own port, and neighbours have different ports |
| AddrMapNodeTable.TableIsShortest | util/solder/solder.py:224-248 | no list of non-overlapping entries that sends every owned address to the port the table gives has fewer entries than the table |
| AddrMapNodeTable.HopIsFirstShortest | util/solder/solder.py:180-206 | ties: of the attached entries that are one node closer to the owner, an address goes to the one attached first |
| AddrMapDelivery.TableTargets | util/solder/solder.py:176-248 | whatever the leaf sizes, the leaves listed in a table are exactly the leaves the node reaches |
| AddrMapDelivery.TableDependsOnlyOnReachable | util/solder/solder.py:176-248 | a table is determined by the entries that attachments lead to |
| AddrMapDelivery.UnreachedAttachKeepsTable | util/solder/solder.py:143-147 | attaching to a node that `n` does not lead to keeps the table of `n` |
| AddrMapDelivery.NewLeafChangesTable | util/solder/solder.py:143-147 | any change that makes a new leaf reachable changes the table |
| AddrMapDelivery.ReachedAttachChangesTable | util/solder/solder.py:173-178 | attaching a new leaf to any node that `n` leads to changes the table of `n`, so one cached before is out of date |
| AddrMapDelivery.CacheSafeIffUnreached | util/solder/solder.py:143-147 | a table of `n` survives attaching new leaves of every size and base to `m` if and only if `n` does not lead to `m` |
| AddrMap.CacheStaysFresh | util/solder/solder.py:143-178 | over any sequence of creations, attachments and requests, a cached table was computed by a request since the last attachment to its node, and is still right if nothing was attached since to a node that its node led to then |
| AddrMap.AddrMap.NewLeaf | util/solder/solder.py:32-35 | appends a leaf and keeps every cached table fresh |
| AddrMap.AddrMap.NewNode | util/solder/solder.py:37-40 | appends a node without attachments and keeps every cached table fresh |
| AddrMap.AddrMap.Attach | util/solder/solder.py:143-147 | appends the attachments, drops only the node's own cached table, and keeps the tables of nodes that do not lead to it fresh |
| AddrMap.AddrMap.GetRangesInner | util/solder/solder.py:149-171 | the recursive search with a shared `seen` set terminates, restores the set, and returns the specified routes |
| AddrMap.AddrMap.GetRoutesOf | util/solder/solder.py:176-248 | returns the cached table or computes and caches the specified one; failures cache nothing |
| AddrMap.AddrMap.CollectRoutes | util/solder/solder.py:180-184 | the loop over ports gathers the node's routes |
| AddrMap.CollapseRoutes | util/solder/solder.py:192-218 | the simplification loop with its early exit computes the specified outcome |
| AddrMap.CompressRoutes | util/solder/solder.py:226-242 | the compression loop computes the specified table |
| ClusterBarrier.RunInv | sw/banshee/src/engine.rs:1362-1384 | in every interleaving the counter counts the harts gathered, then N plus the harts released, and all bumps are accounted for |
| ClusterBarrier.BarrierSafety | sw/banshee/src/engine.rs:1362-1384 | for any number of harts, schedule and rounds, no hart has left a barrier that some hart has not entered |
| ClusterBarrier.ResetErasesOneRound | sw/banshee/src/engine.rs:1369-1372 | core 0 resets only a counter of 2N-1, when all others have left and none has bumped in the next round; total bumps are 2N-1 per completed round plus the counter |
| ClusterBarrier.SomeoneMoves | sw/banshee/src/engine.rs:1365-1383 | deadlock freedom: while calls are left, some hart has a step that is not a spin |
| ClusterBarrier.BarrierProgress | sw/banshee/src/engine.rs:1362-1384 | N harts calling the barrier k times finish in exactly 5kN steps other than spins, never stuck before, with the counter at 0 and 2N-1 bumps per round |
| ClusterBarrier.Cluster.Access | sw/banshee/src/engine.rs:1362-1384 | each access updates the shared counter as the state machine says |
| WakeUp.SleepersCounted | sw/banshee/src/engine.rs:1308-1311 | in every run `num` is the number of set sleep flags, flags match sleepers, and getting up never underflows `num` |
| WakeUp.StepEffect | sw/banshee/src/engine.rs:1294-1340 | every action, field by field and hart by hart: entering sets the flag and counts the sleeper, getting up clears flag and request, uncounts, runs again and takes the larger clock, and nothing else changes |
| WakeUp.EnabledExactly | sw/banshee/src/engine.rs:1294-1340 | a running hart can do anything of its own, a sleeper exactly one of polling, ending and getting up, by its two flags, an ended hart nothing |
| WakeUp.ExitTestExact | sw/banshee/src/engine.rs:1312-1316 | the exit test holds exactly if all harts sleep and no request is outstanding |
| WakeUp.ExitAgreement | sw/banshee/src/engine.rs:1294-1340 | once any wfi has returned 1, all harts sleep with no request outstanding, and whatever follows no wfi returns 0, nobody wakes anybody and nobody runs |
| WakeUp.EveryoneEnds | sw/banshee/src/engine.rs:1318-1328 | from such a state every hart's wfi has returned 1 after at most one more poll |
| WakeUp.NoLostWakeUp | sw/banshee/src/engine.rs:1294-1340 | over any run a request stays until its hart consumes it, and until then no hart gives up |
| WakeUp.RequestedSleeperGetsUp | sw/banshee/src/engine.rs:1318-1340 | a requested sleeper is running again after at most one more poll, with flag and request cleared, one sleeper less counted, and all other harts unchanged |
| WakeUp.EachWakeNeedsARequest | sw/banshee/src/engine.rs:1329-1337 | over any run a hart returns from sleep at most as often as it was asked to |
| WakeUp.WokenAfterWaker | sw/banshee/src/engine.rs:1329-1337 | in every run a hart that can get up has a last waker, whose request nobody renewed and the hart did not use up; getting up sets its clock to the larger of its own and one more than the waker's clock at the time |
| WakeUp.WakeupState.Wake | sw/banshee/src/engine.rs:1386-1395 | -1 asks every hart, an index in range asks that hart, any other value nobody, as the machine's step does |
| WakeUp.WakeupState.Test | sw/banshee/src/engine.rs:1312-1327 | the counting loop computes the two flags a sleeper decides on: its request is empty; all sleep and no request is outstanding |
| WakeUp.WakeupState.Enter | sw/banshee/src/engine.rs:1294-1317 | the entry section: skip and clear the request on a pending interrupt, else set the flag, count the sleeper and test; as the machine's step does |
| WakeUp.WakeupState.Exit | sw/banshee/src/engine.rs:1329-1340 | the exit section clears request and flag, decrements `num`, and returns the larger clock; as the machine's step does |
| ClusterInterrupt.StepEffect | sw/banshee/src/engine.rs:913-934 | a set turns on exactly the masked bits and holds exactly those it found off, a clear turns off the masked bits and all above bit 31, a round of the loop leaves the register alone |
| ClusterInterrupt.LastStoreWins | sw/banshee/src/engine.rs:913-934 | over any run a bit is on exactly if the last store that decides it was a set, or if there was none and it was on before |
| ClusterInterrupt.EveryRiseWakesOnce | sw/banshee/src/engine.rs:913-934 | in every interleaving of set and clear stores, a bit is its rises minus its falls, and every rise has had its one round in a wake-up loop or is still owed by the one store that caused it |
| ClusterInterrupt.QuiescentWakes | sw/banshee/src/engine.rs:913-928 | when no store is in progress, wake-ups and rises of a bit are equal in number |
| ClusterInterrupt.WokenHartReadsBit | sw/banshee/src/engine.rs:1349-1354 | bit b wakes a core of its own cluster that reads bit b if and only if b is below the number of cores; up to 32 cores no other core reads it |
| ClusterInterrupt.OwnBitsIffSmall | sw/banshee/src/engine.rs:1349-1354 | every core is woken by the bit it reads if and only if the cluster has at most 32 cores |
| InterruptWakeUp.RegisterEffect | sw/banshee/src/engine.rs:919-928 | a step of a store asks a hart exactly if it is the round of a bit that this store turned on and whose slot names the hart; it changes nothing else of the wake-up record |
| InterruptWakeUp.RegisterRuns | sw/banshee/src/engine.rs:913-934 | every run of register and wake-up record together is, in its register, a run of the register machine |
| InterruptWakeUp.NoLostInterrupt | sw/banshee/src/engine.rs:913-928 | in every interleaving of stores, sleeping, polling and getting up, from a rise of a bit until its hart gets up or skips wfi the wake-up is owed by a running store or set in the hart's slot, and no wfi returns 1 |
| InterruptWakeUp.PendingMoves | sw/banshee/src/engine.rs:919-928 | a pending wake-up can move on: the owing store has its next round, or its hart runs or can get up after at most one poll |
| ClusterInterrupt.Check | sw/banshee/src/engine.rs:1349-1354 | masking and shifting returns a hart's own bit |
| InterruptWakeUp.ClClint.StoreSet | sw/banshee/src/engine.rs:913-928 | sets the masked bits, requests exactly the harts named by slots of bits that went from 0 to 1, and so has the effect of the machine's set followed by its 32 rounds |
| InterruptWakeUp.ClClint.StoreClear | sw/banshee/src/engine.rs:930-934 | clears the masked bits, keeps the other low 32 bits, and clears all bits above; as the machine's step does |
| Scratchpad.LoadBytes | sw/banshee/src/engine.rs:715-720 | shift and mask assemble the bytes of the access in little-endian order |
| Scratchpad.StoreBytes | sw/banshee/src/engine.rs:842-851 | shift and mask write the bytes of the value that fall into the word, and keep the others |
| Scratchpad.LoadRefines | sw/banshee/src/engine.rs:711-742 | a load inside a word, aligned or not, returns the bytes that one shared byte memory has at the address |
| Scratchpad.StoreRefines | sw/banshee/src/engine.rs:835-876 | a store inside a word, aligned or not, changes exactly the bytes it covers, of all bytes of all memories |
| Scratchpad.ByteUnique | sw/banshee/src/engine.rs:360-383 | every address in a range has exactly one byte in the word arrays, every other address none |
| Scratchpad.LoadRightIffInside | sw/banshee/src/engine.rs:715-720 | a load is right for all memory contents if and only if it stays inside one word |
| Scratchpad.StoreRightIffInside | sw/banshee/src/engine.rs:842-851 | a store writes its bytes and keeps the others, for all values and contents, if and only if it stays inside one word |
| Scratchpad.Tcdms.Select | sw/banshee/src/engine.rs:711-736 | a memory is found if and only if the address is mapped; it is the local one if that matches, else the first that does |
| Scratchpad.Tcdms.Load | sw/banshee/src/engine.rs:711-742 | from any cluster, by either path, a load inside a word reads the shared memory |
| Scratchpad.Tcdms.Store | sw/banshee/src/engine.rs:835-876 | from any cluster, by either path, a store inside a word updates the shared memory and nothing else |
| Sequencer.ItemCalls | util/gen_trace.py:395-453 | an FREP is issued repetition-major (outer) or instruction-major (inner) in exactly (max_inst+1)*(max_rpt+1) calls and leaves no configuration and no buffer behind |
| Sequencer.ProgramCalls | util/gen_trace.py:395-453 | a queued program is issued as its unrolling, without failure |
| Sequencer.NestedExactly | util/gen_trace.py:413-424 | a call ends the program for a nested FREP exactly if the next instruction it takes into an FREP body is an FREP |
| Sequencer.ProgramLeaves | util/gen_trace.py:395-453 | of a queued program, the first j issues have taken exactly the inputs they need: of each FREP its configuration and one body instruction per call until the body is in |
| Sequencer.EmulExtends | util/gen_trace.py:395-453 | a call that succeeds does not depend on what is queued behind its inputs |
| Sequencer.EmulNeeds | util/gen_trace.py:395-453 | a call that succeeds with more inputs queued succeeds without them if and only if it leaves at least those, and otherwise fails for want of input |
| Sequencer.OnlineIsBatch | util/gen_trace.py:395-453 | in any interleaving of pushes and calls, the issues are those of the run with all inputs queued beforehand |
| Sequencer.FrepRefinement | util/gen_trace.py:395-453 | however the inputs of a program arrive between calls: the run succeeds if and only if every call comes after the inputs that the issues up to it take, and fails only for want of input; the issues are a prefix of the unrolled program, and when all are out the machine is empty |
| Sequencer.TakeInsn | util/gen_trace.py:425-445 | the replication loops fill the buffer as specified |
| Sequencer.FseqInfo.EmulSeq | util/gen_trace.py:395-453 | the imperative call updates the queues as the specification says and fails in the same cases |
| SequencerTrace.QueuesAligned | util/gen_trace.py:660-676 | after every trace, the queued FREPs are those with a waiting configuration followed by those without one, in order |
| SequencerTrace.LooseEndsExact | util/gen_trace.py:875-904 | the first number counts the queued FREPs, the second one the queued plain instructions plus the FREPs whose configuration is waiting; there is nothing to warn about exactly if no instruction is left to issue |
| SequencerTrace.TraceExplained | util/gen_trace.py:660-695 | at any point everything offloaded, configured and issued is accounted for by finished items, the FREP in progress, and the queues |
| SequencerTrace.TraceDrives | util/gen_trace.py:660-695 | every trace is an interleaved run of the sequencer with its offloads and configurations |
| SequencerTrace.TraceRecorded | util/gen_trace.py:655-695 | read off the lines: there is one section more than marks, each offload is in the section given by the marks before its line, the k-th configuration has its line's numbers and the PC of the k-th FREP, and there are as many issues as issue lines |
| SequencerTrace.CfgFailsExactly | util/gen_trace.py:672-676 | a configuration line ends the program exactly if every FREP offloaded so far has its configuration |
| SequencerTrace.NoLooseEndsIffComplete | util/gen_trace.py:875-904 | a trace has no loose ends if and only if its lines are those of a program: its offloads, each FREP with its own configuration, and as many issues as its unrolling; there is at most one such program, and the issues are its unrolling |
| SequencerTrace.TraceCounted | util/gen_trace.py:501-504 | there is one section more than marks, a section's offload counter counts the instructions offloaded between its marks, and its issue counter the issues charged to it, all of them in existing sections |
| SequencerTrace.SectionConservation | util/gen_trace.py:655-695 | after a trace without loose ends a section's issue count is the sum over the instructions offloaded between its marks, 1 if plain and max_rpt+1 if in an FREP body |
| FloatDecode.SliceValue | util/gen_trace.py:331-331 | the last digits of the binary text have the value of the number's low bits |
| FloatDecode.DecodeFields | util/gen_trace.py:327-349 | decoding the sliced text gives the reference value of sign, exponent and mantissa: a whole number of smallest-subnormal units, an infinity or a NaN |
| FloatDecode.DecodeScaled | util/gen_trace.py:338-349 | absolute scale in whole numbers: a finite value times 2^(2^(w_exp-1) - 2 + w_mnt) is, up to its sign, mnt for subnormals and (2^w_mnt + mnt) * 2^(exp-1) otherwise |
| FloatDecode.DecodeOne | util/gen_trace.py:338-349 | exponent field equal to the bias and empty mantissa decode to 1, with the sign bit to -1 |
| FloatDecode.FiniteExactly | util/gen_trace.py:342-343 | a pattern decodes to a finite value exactly if its exponent field is not all ones |
| FloatDecode.DecodeIncreasing | util/gen_trace.py:341-349 | over the non-negative finite encodings decoding is strictly increasing in the bit pattern, across the subnormal and every binade boundary |
| FloatDecode.DecodeInjective | util/gen_trace.py:341-349 | finite patterns decode to the same value only if they are equal or both zeros |
| FloatDecode.DecodeNegates | util/gen_trace.py:334-349 | setting the sign bit negates |
| FloatDecode.DecodeIgnoresHighBits | util/gen_trace.py:329-331 | bits above the format's width do not matter |
| Peripherals.FindWindow | sw/banshee/src/peripherals.rs:51-82 | the subtracting walk finds the window and offset of an address, or nothing exactly beyond the last window |
| Peripherals.WindowUnique | sw/banshee/src/peripherals.rs:51-82 | an address has one window and offset |
| Peripherals.CounterBalance | sw/banshee/src/peripherals.rs:167-221 | over any sequence of stores on the three counters, spinning takes included, each counter is its last plainly stored value or its first one, plus later adds, minus later completed takes, minus 2^32 per overflow, which is that balance modulo 2^32 |
| Peripherals.BoundedBuffer | sw/banshee/src/peripherals.rs:167-205 | for any producers and consumers in any interleaving from (N, 0), free, filled and held slots stay N, filled ones are produced minus consumed, and at most N items are outstanding |
| Peripherals.NeverStuck | sw/banshee/src/peripherals.rs:167-205 | with unit amounts and N >= 1 some client can always act |
| Peripherals.Semaphores.TryStore | sw/banshee/src/peripherals.rs:167-221 | one atomic round of a store acts on the counter its address selects; a take that the counter does not cover changes nothing |
| PmaRegions.PowerOfTwoTest | util/clustergen/cluster.py:135-135 | among all integers the test recognises exactly the powers of two |
| PmaRegions.AcceptanceExact | util/clustergen/cluster.py:133-143 | a region is accepted if and only if its length is a power of two below the address space and its base is inside it and a multiple of the length, for every width |
| PmaRegions.RegionIsInterval | util/clustergen/cluster.py:136-143 | an address matches base and mask exactly if it lies in [base, base+length) |
| PmaRegions.PmaCfg.AddRegionLength | util/clustergen/cluster.py:130-143 | appends exactly one region that matches exactly its interval, or leaves the list alone |

## Left out

- LLVM translation, ELF loading, trace output and flexfloat calls of the simulator: foreign calls.
- Weak memory ordering of relaxed atomics: steps are sequentially consistent; the barrier uses a single location.
- The global CLINT store branch, store-conditional, DRAM, fence and boot ROM: not modelled.
- Spin loops: one round of a spin is one step, repeated by the schedule; no fairness of the host scheduler is assumed.
- 64-bit clocks and counters of the wake-up record: natural numbers without overflow.
- Scratchpad.Tcdms.constructor: does not model the preload of the word arrays from the ELF image; word arrays are values of a field, so raw-pointer aliasing is captured only as both paths reaching the same field.
- AddrMapTable.CollisionCheckExact: assumes non-empty ranges, which holds when leaf sizes are positive; the generator does not check sizes, and `CheckExactIffPositive` and `SizesMustBePositive` show that nothing less will do.
- InterruptWakeUp.NoLostInterrupt: models the register of one cluster; stores of other clusters appear as the wake-ups they make.
- FloatDecode.DecodeIncreasing: values are exact reals, so rounding to a host double is not modelled; formats have at most 64 bits, as the 64-digit text and all formats listed in the tool do.
- Nested FREPs and permissive mode of the sequencer: a nested FREP ends the run.
- Annotation text, write-back queues, latencies and the other performance metrics of the trace tool.
- Verilog, device-tree and header emission of the generators, and the address-map drawing.
- InterruptWakeUp.ClClint.StoreSet: runs its wake-up loop without interruption and does not model hart indices of more than 32 bits; the interleaving of its rounds with other harts is in the machine.
