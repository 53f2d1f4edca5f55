# Page-replacement simulator: a Dafny model

This project models the core of a trace-driven paging simulator written in Go (`main.go`). Physical memory of `memorySize` bytes is split into 4096-byte frames. An access trace is read line by line from a file; each valid line names a page (an ID starting with `I` for an instruction or `D` for data). The trace is then replayed under two page-replacement policies, and each reports its number of page faults and a per-page load count:

- **the optimal (Belady) policy**. For every page it builds the ascending list of positions where the page occurs. On a fault with all frames in use, it binary-searches each resident page's list for the page's next use. It evicts the first frame whose page is never used again, or else the first frame whose next use is farthest away.
- **the clock (second-chance) policy**. Frames are filled lowest slot first. Once all are in use, a pointer sweeps round the frames, clearing reference bits, and evicts the first frame it finds unreferenced. The new page goes into that frame, and the pointer ends one slot past it.

Modules:

| file | module | contents |
|---|---|---|
| `paging.dfy` | `Paging` | page size, `Option`, the load counter (`map<string,int>`), its sum, the set of pages of a trace, the bookkeeping both policies keep |
| `trace.dfy` | `Trace` | `PageAccess`, which line yields which access, the accesses read from a sequence of lines |
| `nextuse.dfy` | `NextUse` | the per-page position lists, Go's `sort.SearchInts` as a binary search, the next use of a page |
| `optimal.dfy` | `Optimal` | the optimal policy: a step function, its fold over a trace, its invariants, and the loop as an imperative method |
| `clock.dfy` | `Clock` | `PageFrame`, the clock policy: the sweep, a step function and its fold, invariants, and the loop over an `array` of frames |
| `simulation.dfy` | `Simulation` | the `Simulator` class: construction, loading a trace, the two policies, `Run` |
| `fixtures.dfy` | `Fixtures` | worked examples pinned to the fault counts the model computes |

Each policy is written twice:
- as a pure step function (`OptStep`, `ClockStep`) folded over the trace (`OptPrefix`/`OptRun`, `ClockPrefix`/`ClockRun`); the invariants are proved on that fold;
- as the imperative loop of the Go code (`Optimal.Simulate`, `Clock.Simulate`), proved equal to the fold.

The clock loop works in place on an `array<Option<PageFrame>>`, where `None` is a nil slot. The `Simulator` class holds the Go struct's fields, and its methods update them like the Go methods do.

On A B C A B D A B C D with three frames the code's optimal policy faults 5 times, which is Belady's minimum (four distinct pages fault once each, and one of A, B, C must come back after D displaces it). The clock policy faults 8 times. `Fixtures.Example1` proves both.

## Model

| member | source | states |
|---|---|---|
| Paging.Inc | main.go:138 | Go's `m[k]++`: the counter gains the key if it was missing, that page's count goes up by one (from 0 when missing), and every other count is unchanged |
| Paging.AccountStep | main.go:131-138 | a hit leaves the fault count and the load counter alone; a fault adds one to both, so the fault count stays the sum of the load counts, the counter's keys stay the pages seen, and faults stay at most one per access |
| Trace.ByteLen | main.go:83 | Go's `len` of a string, its UTF-8 byte count, lies between the number of characters and four times that |
| Trace.IsPageId | main.go:83 | the character test used by the model accepts exactly the IDs that Go's byte test accepts: at least two bytes, the first byte being that of `I` or `D` |
| Trace.PageIdField | main.go:71-81 | the page ID is taken from the second field when there are two or more, from the only field otherwise; a line without fields has none, and the ID is always one of the line's fields |
| Trace.ParseLine | main.go:64-89 | every access a line yields has a valid page ID (two or more characters, first `I` or `D`) and that ID's first letter as its type |
| Trace.ParseLineIdFieldOnly | main.go:71-74 | for a line of two or more fields, what the line yields depends on its second field alone: the first field and any fields after the second never matter |
| Trace.ParseLineRoundTrip | main.go:71-88 | every well-formed access is read back unchanged from a one-field line holding its ID, and from any line whose second field is its ID |
| Trace.AcceptedAccesses | main.go:60-96 | the accesses read from a sequence of lines, in order, at most one per line, all well-formed |
| Trace.AcceptedAppend | main.go:84-89 | reading two runs of lines one after the other gives the accesses of the first followed by those of the second |
| Trace.AcceptedMembers | main.go:60-96 | an access is read from the lines exactly when some line yields it |
| Trace.AcceptedEmpty | main.go:106-108 | no access is read exactly when no line is accepted, which is the loader's error case |
| Trace.PageIds | main.go:123-124 | the page-ID sequence the policies replay has one entry per access, the access's ID |
| NextUse.PositionsIn | main.go:122-126 | the positions of a page among the first `n` accesses, at most `n` of them |
| NextUse.PositionsInSpec | main.go:122-126 | each page's position list is strictly increasing and holds exactly the positions where that page occurs |
| NextUse.BuildNextUse | main.go:122-126 | the preprocessing loop yields, for every page, exactly its ascending position list, with a key for each page of the trace |
| NextUse.SearchInts | main.go:150 | the binary search returns the smallest index whose element is at least the target (the list length when there is none): everything before it is smaller, everything from it on is at least the target |
| NextUse.NextOccurrence | main.go:150-158 | the first position at or after `from` holding the page, or the trace length; it always lies between `from` and the trace length |
| NextUse.NextOccurrenceSpec | main.go:150-158 | the next occurrence of a page at or after a position is an occurrence (or the trace length when there is none), with no occurrence before it; these facts determine it |
| NextUse.SearchFindsNextUse | main.go:150-158 | searching a page's list for `i + 1` and reading the element found (or the trace length when the search runs off the end) gives the page's next use strictly after `i` |
| Optimal.FarthestIn | main.go:144-163 | the frame the scan over the first `upto` frames keeps; it is one of those frames |
| Optimal.Victim | main.go:144-168 | the frame evicted on a fault with all frames in use; it is a frame in use |
| Optimal.OptStep | main.go:128-177 | after an access the page is resident; the fault count goes up by one exactly on a miss, and the frames grow by one exactly on a miss with a free frame |
| Optimal.FarthestInSpec | main.go:144-163 | the frame the scan keeps has the farthest next use among the frames scanned, and every earlier frame's next use is strictly nearer (ties go to the lowest frame) |
| Optimal.VictimRule | main.go:144-168 | with all frames in use a victim is always found; it is the lowest frame whose page is never used again if there is one, and otherwise the lowest frame whose next use is the farthest |
| Optimal.FarthestStable | main.go:165-167 | once the scan meets a page that is never used again, no later frame can displace it, so stopping the scan there does not change the victim |
| Optimal.FillKeepsFrames | main.go:140-142 | appending a non-resident page keeps the frames free of duplicates with the map sending each resident page to its index |
| Optimal.EvictKeepsFrames | main.go:170-176 | overwriting the victim's frame with a non-resident page and moving the map entry keeps no page in two frames and the map exact |
| Optimal.OptStepValid | main.go:128-177 | one access keeps the invariant: at most `totalFrames` resident pages, no page in two frames, the map exactly the resident pages at their indices, the fault count the sum of the load counts |
| Optimal.OptPrefixValid | main.go:116-180 | the invariant holds after every prefix of the trace |
| Optimal.OptStepCases | main.go:128-177 | a hit changes nothing; a fault adds one fault and one load of the page, and either appends it (free frame) or writes it over the victim in place, nothing else changing |
| Optimal.OptRunAccounted | main.go:116-180 | after the whole trace the fault count is the sum of the load counts, exactly the trace's pages were loaded, faults are at most the number of accesses, and at most `totalFrames` pages are resident |
| Optimal.OptNoEviction | main.go:128-142 | after any prefix whose distinct pages number at most `totalFrames`, the resident pages, the counted pages and the pages seen so far coincide, and each faulted exactly once |
| Optimal.OptEnoughFrames | main.go:140-142 | with at least as many frames as distinct pages, the fault count is the number of distinct pages and every page is loaded once |
| Optimal.OptOneFrame | main.go:128-177 | with a single frame, the fault count is the number of accesses whose page differs from the previous access's page, and the frame holds the page just accessed |
| Optimal.FindNextUse | main.go:148-158 | the method returns the page's next use strictly after `i` (the trace length when none) |
| Optimal.SelectVictim | main.go:144-168 | the scan loop, with its early exit, returns exactly the victim the victim rule names |
| Optimal.Simulate | main.go:116-180 | the imperative policy returns the fault count and load counter of the fold over the whole trace, so the fault count is the sum of the load counts and exactly the trace's pages were loaded |
| Clock.FirstEmptyFrom | main.go:209-215 | the first nil slot at or after `j`, or -1; any slot it returns is at or after `j` and within the array |
| Clock.ClockInit | main.go:184-190 | the starting state is well-formed (one slot per frame, the pointer on a slot, the map pointing only at slots in use) and its lowest nil slot is slot 0, so the first fault fills slot 0; with no frame there is no nil slot |
| Clock.ClockStep | main.go:192-254 | after an access the page is mapped and the array keeps its size (how the counters move is stated by `Clock.ClockHit` and `Clock.ClockFault`) |
| Clock.FirstEmptySpec | main.go:209-215 | the empty-frame search returns -1 exactly when every frame is in use, and otherwise the lowest nil slot |
| Clock.Sweep | main.go:227-246 | with every frame in use the sweep ends, on an unreferenced victim slot, keeping every frame in use, after passing at most as many frames as had their bit set |
| Clock.SweepSpec | main.go:227-246 | the sweep passes at most `F` slots, so the loop runs at most `F + 1 <= 2F` times; the victim is the slot that many ticks after the pointer; the slots passed had their bit set, and now have it cleared; all others are unchanged; if fewer than `F` slots are passed, the victim was unreferenced from the start |
| Clock.SweepKeepsPages | main.go:243 | the sweep changes only reference bits: every slot keeps its page and load count |
| Clock.ClockStepWellFormed | main.go:192-254 | each access keeps one slot per frame, the pointer within `[0, F)` and the map pointing at slots in use |
| Clock.HitKeepsShape | main.go:195-197 | setting a hit frame's bit keeps the frame invariant |
| Clock.FillKeepsShape | main.go:217-224 | filling the lowest nil slot keeps nil slots a suffix and the map exact |
| Clock.EvictKeepsShape | main.go:227-239 | replacing the sweep's victim keeps every slot in use, the map exact and each frame loaded once |
| Clock.ClockStepValid | main.go:191-254 | one access keeps the invariant: nil slots form a suffix, the map sends each resident page to the slot holding it, each slot in use is its page's map entry, every frame's load count is 1, and the fault count is the sum of the load counts |
| Clock.ClockPrefixValid | main.go:183-257 | the invariant holds after every prefix of the trace |
| Clock.ClockRunAccounted | main.go:183-257 | after the whole trace the fault count is the sum of the load counts, exactly the trace's pages were loaded, faults are at most the number of accesses, and the pointer is within `[0, F)` |
| Clock.ClockHit | main.go:195-201 | a hit sets only that frame's bit; no other slot, the map, the pointer and both counters are unchanged |
| Clock.ClockFault | main.go:204-246 | a fault adds one fault and one load of the page, and installs it (bit set, load count 1) under its map entry. With a nil slot, the page takes the lowest one and the pointer stays put; nothing else changes. Otherwise the sweep's frames are kept, with the victim slot replaced; the victim's old page loses its map entry, and the pointer ends one slot past the victim |
| Clock.ClockNoEviction | main.go:209-224 | after any prefix whose distinct pages number at most `totalFrames`, exactly the first slots are in use, one per page seen, each page mapped and loaded once |
| Clock.ClockEnoughFrames | main.go:209-224 | with at least as many frames as distinct pages, the fault count is the number of distinct pages and every page is loaded once |
| Clock.ClockOneFrame | main.go:191-254 | with a single frame, the fault count is the number of accesses whose page differs from the previous access's page, and the frame holds the page just accessed |
| Clock.FindEmptyFrame | main.go:209-215 | the loop over the array returns the lowest nil slot, or -1 when all slots are in use |
| Clock.SecondChance | main.go:227-246 | the sweep loop, in place on the array, leaves the frames and the victim that the sweep function describes |
| Clock.Access | main.go:192-254 | one pass of the loop body, in place on the array, leaves the state the step function gives |
| Clock.Simulate | main.go:183-257 | the imperative policy returns the fault count and load counter of the fold over the whole trace, so the fault count is the sum of the load counts and exactly the trace's pages were loaded |
| Simulation.FramesFor | main.go:40 | the frame count is the memory size divided by 4096, truncated toward zero: for a non-negative size it is the largest `r` with `r * 4096 <= memorySize`; for a negative size it is the mirror image |
| Simulation.FramesForZero | main.go:40 | there is no frame exactly when less than one page fits (`-4096 < memorySize < 4096`), and at least one exactly when `memorySize >= 4096` |
| Simulation.Simulator.constructor | main.go:37-47 | a new simulator keeps the memory size, derives the frame count, and starts with no access, no distinct page and no load counted |
| Simulation.Simulator.LoadAccessFile | main.go:60-108 | the accepted accesses of the lines are appended to those already loaded, their pages are added to the distinct pages, and the error is reported exactly when no access has been loaded |
| Simulation.Simulator.OptimalAlgorithm | main.go:116-180 | returns the optimal policy's fault count over the loaded page IDs and replaces the load counter by that run's; the simulator stays consistent |
| Simulation.Simulator.ClockAlgorithm | main.go:183-257 | returns the clock policy's fault count over the loaded page IDs and replaces the load counter by that run's; the simulator stays consistent |
| Simulation.Simulator.Run | main.go:315-350 | with no frame it refuses and changes nothing; otherwise it reports the optimal fault count (-1 when skipped) and the clock fault count, and the clock's load counter remains: one entry per distinct page, summing to the clock's faults, which are at most the number of accesses; the simulator stays consistent |
| Fixtures.Example1 | main.go:116-257 | on I-A I-B I-C I-A I-B I-D I-A I-B I-C I-D with three frames, the optimal policy faults 5 times (C loaded twice) and the clock policy 8 times (every page loaded twice) |
| Fixtures.Example3 | main.go:116-257 | four distinct pages with four frames: 4 faults under both policies |
| Fixtures.Example4 | main.go:116-257 | two pages taking turns in one frame: every one of the 6 accesses faults under both policies |
| Fixtures.Example5 | main.go:116-257 | one page accessed four times with one frame: a single fault and a single load of that page under both policies |

## Left out

- Opening and reading the file, `bufio.Scanner`, scanner errors and the capped warning messages of `LoadAccessFile`: that is I/O. The loader model takes each line already split into its fields. After `strings.TrimSpace`, a blank line is exactly a line with no fields, so the blank-line skip and the `len(parts) == 0` branch both show up as a line that yields nothing.
- The line and invalid-line counters of `LoadAccessFile`: they only feed messages.
- All printing: `printMemoryState`, `ShowLoadCount`, `EstimatePageTableSize`, the didactic-mode traces and `Run`'s reports.
- The efficiency percentage of `Run`: floating point, and output only.
- `estimateExecutionTime`, `main`'s argument parsing and its rejection of memory below one page; `skipOptimal` is a public field of the class, set directly as `main` does.
- The fields `didacticMode`, `showLoadCount` and `showPageTable` of the Go struct: they only switch output on.
- Go's `sort.SearchInts` library routine: modelled by `NextUse.SearchInts`, a binary search proved against its specification.
- Comparisons between policies (optimal never worse than clock) and behaviour as the frame count grows: the code neither states nor checks them.
- Page IDs are strings of characters, while the Go code tests `len(pageID) >= 2` and `pageID[0]` on bytes. The model keeps the character test, and `Trace.IsPageId` proves it agrees with the byte test on every string, so the byte encoding itself is not modelled any further.
- Simulation.Simulator.Run: requires a non-negative frame count. A negative count comes only from a negative memory size, which `main` rejects, and on which the Go policies would fail when making their slices.
- Simulation.Simulator.OptimalAlgorithm and Simulation.Simulator.ClockAlgorithm: require at least one frame. `Run` calls them only then; with no frame the Go code would index an empty slice.
- Clock: frames are values in the array, not pointers to shared records. No `PageFrame` is reachable from two slots in the Go code, so no aliasing is lost.
- Clock.SecondChance: the install step that the Go sweep loop performs when it finds the victim is done by `Clock.Access` right after the loop. The same statements run in the same order.
