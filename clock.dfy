/** The clock (second-chance) policy of `Simulator.ClockAlgorithm`: frames
    are filled lowest index first; once all are in use a pointer sweeps
    round them, clearing reference bits, and evicts the first frame it
    finds unreferenced. */
module Clock {
  import opened Paging

  /** One frame: the resident page, its reference bit and its load count. */
  datatype PageFrame = PageFrame(pageId: string, referenced: bool, loadCount: int)

  /** The local state of the Go loop: the frame array (`None` for a nil
      slot), the page -> frame index map, the clock pointer and the two
      counters. */
  datatype ClockState = ClockState(frames: seq<Option<PageFrame>>, pageToFrame: map<string, int>,
                                   clockPointer: int, pageFaults: int, pageLoadCount: Counter)

  predicate IsReferenced(slot: Option<PageFrame>) {
    slot.Some? && slot.value.referenced
  }

  /** The number of frames whose reference bit is set. */
  function RefCount(frames: seq<Option<PageFrame>>): (r: nat)
    ensures r <= |frames|
  {
    if frames == [] then 0
    else (if IsReferenced(frames[0]) then 1 else 0) + RefCount(frames[1..])
  }

  /** A frame with its reference bit cleared (its second chance used up). */
  function Cleared(slot: Option<PageFrame>): Option<PageFrame>
    requires slot.Some?
  {
    Some(slot.value.(referenced := false))
  }

  /** Clearing one set bit lowers the count by exactly one. */
  lemma {:induction false} ClearDecreases(frames: seq<Option<PageFrame>>, k: nat)
    requires k < |frames| && IsReferenced(frames[k])
    ensures RefCount(frames[k := Cleared(frames[k])]) == RefCount(frames) - 1
    decreases k
  {
    var after := frames[k := Cleared(frames[k])];
    if k == 0 {
      assert after[1..] == frames[1..];
    } else {
      assert after[1..] == frames[1..][k - 1 := Cleared(frames[k])];
      ClearDecreases(frames[1..], k - 1);
    }
  }

  ghost predicate AllFull(frames: seq<Option<PageFrame>>) {
    forall j :: 0 <= j < |frames| ==> frames[j].Some?
  }

  /** The first nil slot at or after `j`, or -1 when there is none. */
  function FirstEmptyFrom(frames: seq<Option<PageFrame>>, j: nat): (r: int)
    requires j <= |frames|
    ensures r == -1 || j <= r < |frames|
    decreases |frames| - j
  {
    if j == |frames| then -1
    else if frames[j].None? then j
    else FirstEmptyFrom(frames, j + 1)
  }

  function FirstEmpty(frames: seq<Option<PageFrame>>): int {
    FirstEmptyFrom(frames, 0)
  }

  /** -1 exactly when every slot is in use; otherwise the lowest nil slot. */
  lemma {:induction false} FirstEmptyFromSpec(frames: seq<Option<PageFrame>>, j: nat)
    requires j <= |frames|
    ensures FirstEmptyFrom(frames, j) == -1 <==> forall k :: j <= k < |frames| ==> frames[k].Some?
    ensures FirstEmptyFrom(frames, j) != -1 ==>
              && frames[FirstEmptyFrom(frames, j)].None?
              && forall k :: j <= k < FirstEmptyFrom(frames, j) ==> frames[k].Some?
    decreases |frames| - j
  {
    if j < |frames| && frames[j].Some? {
      FirstEmptyFromSpec(frames, j + 1);
    }
  }

  lemma FirstEmptySpec(frames: seq<Option<PageFrame>>)
    ensures FirstEmpty(frames) == -1 <==> AllFull(frames)
    ensures FirstEmpty(frames) != -1 ==>
              && 0 <= FirstEmpty(frames) < |frames|
              && frames[FirstEmpty(frames)].None?
              && forall k :: 0 <= k < FirstEmpty(frames) ==> frames[k].Some?
  {
    FirstEmptyFromSpec(frames, 0);
  }

  /** What a sweep ends with: the frames with the bits it cleared, the
      victim slot, and how many referenced frames it passed. */
  datatype SweepResult = SweepResult(frames: seq<Option<PageFrame>>, victim: nat, steps: nat)

  /** The `for {}` loop of main.go:227-246 with every frame in use: an
      unreferenced frame under the pointer is the victim; a referenced one
      loses its bit and the pointer moves on. It stops because each pass
      over a referenced frame clears one bit. */
  function Sweep(frames: seq<Option<PageFrame>>, ptr: nat): (r: SweepResult)
    requires AllFull(frames) && ptr < |frames|
    ensures r.victim < |frames| && |r.frames| == |frames| && AllFull(r.frames)
    ensures !r.frames[r.victim].value.referenced
    ensures r.steps <= RefCount(frames)
    decreases RefCount(frames)
  {
    if !frames[ptr].value.referenced then SweepResult(frames, ptr, 0)
    else
      ClearDecreases(frames, ptr);
      var r := Sweep(frames[ptr := Cleared(frames[ptr])], (ptr + 1) % |frames|);
      SweepResult(r.frames, r.victim, r.steps + 1)
  }

  /** How far slot `k` lies after slot `ptr` going round a clock of `n` slots. */
  function Dist(ptr: int, k: int, n: int): int {
    if k >= ptr then k - ptr else k - ptr + n
  }

  /** One clock tick: the next slot, wrapping at the end. */
  lemma Advance(ptr: int, n: int)
    requires 0 <= ptr < n
    ensures (ptr + 1) % n == if ptr + 1 < n then ptr + 1 else 0
  {
    if ptr + 1 == n {
      assert (ptr + 1) % n == n % n == 0;
    }
  }

  /** Every slot but `ptr` is one tick nearer to the next slot than to
      `ptr`, and `ptr` itself is a full turn less one away from it. */
  lemma DistStep(ptr: int, k: int, n: int)
    requires 0 <= ptr < n && 0 <= k < n
    ensures k != ptr ==> Dist((ptr + 1) % n, k, n) == Dist(ptr, k, n) - 1
    ensures k == ptr ==> Dist((ptr + 1) % n, k, n) == n - 1
  {
    Advance(ptr, n);
  }

  /** The sweep visits the slots in clock order from `ptr`: the `steps`
      slots it passes all had their bit set and have it cleared, every
      other slot is untouched, and the victim is the next slot, so it is the
      first unreferenced slot in clock order (or `ptr` itself, after a full
      turn, when every bit was set). The loop runs at most `n + 1 <= 2n`
      times. */
  lemma SweepSpec(frames: seq<Option<PageFrame>>, ptr: nat)
    requires AllFull(frames) && ptr < |frames|
    ensures Sweep(frames, ptr).steps <= |frames|
    ensures Sweep(frames, ptr).steps + 1 <= 2 * |frames|
    ensures Sweep(frames, ptr).victim == if ptr + Sweep(frames, ptr).steps < |frames|
                                         then ptr + Sweep(frames, ptr).steps
                                         else ptr + Sweep(frames, ptr).steps - |frames|
    ensures Sweep(frames, ptr).steps < |frames| ==> !frames[Sweep(frames, ptr).victim].value.referenced
    ensures forall k :: 0 <= k < |frames| && Dist(ptr, k, |frames|) < Sweep(frames, ptr).steps ==>
              IsReferenced(frames[k]) && Sweep(frames, ptr).frames[k] == Cleared(frames[k])
    ensures forall k :: 0 <= k < |frames| && Dist(ptr, k, |frames|) >= Sweep(frames, ptr).steps ==>
              Sweep(frames, ptr).frames[k] == frames[k]
  {
    SweepVictim(frames, ptr);
    SweepFrames(frames, ptr);
  }

  lemma {:induction false} SweepVictim(frames: seq<Option<PageFrame>>, ptr: nat)
    requires AllFull(frames) && ptr < |frames|
    ensures Sweep(frames, ptr).steps <= |frames|
    ensures Sweep(frames, ptr).victim == if ptr + Sweep(frames, ptr).steps < |frames|
                                         then ptr + Sweep(frames, ptr).steps
                                         else ptr + Sweep(frames, ptr).steps - |frames|
    ensures Sweep(frames, ptr).steps < |frames| ==> !frames[Sweep(frames, ptr).victim].value.referenced
    decreases RefCount(frames)
  {
    if frames[ptr].value.referenced {
      var n := |frames|;
      var f1 := frames[ptr := Cleared(frames[ptr])];
      ClearDecreases(frames, ptr);
      Advance(ptr, n);
      SweepVictim(f1, (ptr + 1) % n);
      var r1 := Sweep(f1, (ptr + 1) % n);
      assert Sweep(frames, ptr) == SweepResult(r1.frames, r1.victim, r1.steps + 1);
      assert r1.steps <= n - 1;
    }
  }

  lemma {:induction false} SweepFrames(frames: seq<Option<PageFrame>>, ptr: nat)
    requires AllFull(frames) && ptr < |frames|
    ensures forall k :: 0 <= k < |frames| && Dist(ptr, k, |frames|) < Sweep(frames, ptr).steps ==>
              IsReferenced(frames[k]) && Sweep(frames, ptr).frames[k] == Cleared(frames[k])
    ensures forall k :: 0 <= k < |frames| && Dist(ptr, k, |frames|) >= Sweep(frames, ptr).steps ==>
              Sweep(frames, ptr).frames[k] == frames[k]
    decreases RefCount(frames)
  {
    if frames[ptr].value.referenced {
      var n := |frames|;
      var f1 := frames[ptr := Cleared(frames[ptr])];
      var p1 := (ptr + 1) % n;
      ClearDecreases(frames, ptr);
      SweepFrames(f1, p1);
      var r1 := Sweep(f1, p1);
      var r := Sweep(frames, ptr);
      assert r == SweepResult(r1.frames, r1.victim, r1.steps + 1);
      assert r1.steps <= n - 1;
      forall k | 0 <= k < n
        ensures Dist(ptr, k, n) < r.steps ==> IsReferenced(frames[k]) && r.frames[k] == Cleared(frames[k])
        ensures Dist(ptr, k, n) >= r.steps ==> r.frames[k] == frames[k]
      {
        DistStep(ptr, k, n);
      }
    }
  }

  /** The sweep changes only reference bits: every slot keeps its page
      and its load count. */
  lemma SweepKeepsPages(frames: seq<Option<PageFrame>>, ptr: nat)
    requires AllFull(frames) && ptr < |frames|
    ensures forall k :: 0 <= k < |frames| ==>
              && Sweep(frames, ptr).frames[k].value.pageId == frames[k].value.pageId
              && Sweep(frames, ptr).frames[k].value.loadCount == frames[k].value.loadCount
  {
    SweepSpec(frames, ptr);
    var r := Sweep(frames, ptr);
    forall k | 0 <= k < |frames|
      ensures r.frames[k].value.pageId == frames[k].value.pageId
      ensures r.frames[k].value.loadCount == frames[k].value.loadCount
    {
      if Dist(ptr, k, |frames|) < r.steps {
        assert r.frames[k] == Cleared(frames[k]);
      }
    }
  }

  /** What the step function needs of a state: the array has one slot per
      frame, the pointer is on a slot and the map only points at slots in
      use. */
  predicate WellFormed(st: ClockState, totalFrames: int) {
    && |st.frames| == totalFrames
    && 0 <= st.clockPointer < totalFrames
    && forall p :: p in st.pageToFrame ==>
         0 <= st.pageToFrame[p] < totalFrames && st.frames[st.pageToFrame[p]].Some?
  }

  /** A freshly loaded frame (main.go:217-221, 234-238). */
  function Installed(pageID: string): Option<PageFrame> {
    Some(PageFrame(pageID, true, 1))
  }

  /** One access (main.go:192-254): a hit sets the frame's bit; a fault
      counts one load and takes the lowest nil slot, or else sweeps for a
      victim, replaces it and leaves the pointer one slot past it. */
  function ClockStep(st: ClockState, totalFrames: int, pageID: string): (r: ClockState)
    requires totalFrames >= 1 && WellFormed(st, totalFrames)
    ensures pageID in r.pageToFrame && |r.frames| == |st.frames|
  {
    if pageID in st.pageToFrame then
      var frameIndex := st.pageToFrame[pageID];
      st.(frames := st.frames[frameIndex := Some(st.frames[frameIndex].value.(referenced := true))])
    else
      var faults := st.pageFaults + 1;
      var loads := Inc(st.pageLoadCount, pageID);
      var emptyFrame := FirstEmpty(st.frames);
      FirstEmptySpec(st.frames);
      if emptyFrame != -1 then
        ClockState(st.frames[emptyFrame := Installed(pageID)], st.pageToFrame[pageID := emptyFrame],
                   st.clockPointer, faults, loads)
      else
        var sw := Sweep(st.frames, st.clockPointer);
        var oldPageID := sw.frames[sw.victim].value.pageId;
        ClockState(sw.frames[sw.victim := Installed(pageID)], (st.pageToFrame - {oldPageID})[pageID := sw.victim],
                   (sw.victim + 1) % totalFrames, faults, loads)
  }

  /** All slots nil, pointer at 0, counters reset (main.go:184-190). */
  function ClockInit(totalFrames: nat): (r: ClockState)
    ensures totalFrames >= 1 ==> WellFormed(r, totalFrames) && FirstEmpty(r.frames) == 0
    ensures totalFrames == 0 ==> FirstEmpty(r.frames) == -1
  {
    ClockState(seq(totalFrames, _ => None), map[], 0, 0, map[])
  }

  /** A step keeps the array size, the pointer on a slot and the map
      pointing at slots in use. */
  lemma ClockStepWellFormed(st: ClockState, totalFrames: int, pageID: string)
    requires totalFrames >= 1 && WellFormed(st, totalFrames)
    ensures WellFormed(ClockStep(st, totalFrames, pageID), totalFrames)
  {
    FirstEmptySpec(st.frames);
  }

  /** The state after replaying the first `n` accesses. */
  function ClockPrefix(trace: seq<string>, totalFrames: int, n: nat): ClockState
    requires totalFrames >= 1 && n <= |trace|
    decreases n, 0
  {
    if n == 0 then ClockInit(totalFrames)
    else
      ClockPrefixWellFormed(trace, totalFrames, n - 1);
      ClockStep(ClockPrefix(trace, totalFrames, n - 1), totalFrames, trace[n - 1])
  }

  lemma {:induction false} ClockPrefixWellFormed(trace: seq<string>, totalFrames: int, n: nat)
    requires totalFrames >= 1 && n <= |trace|
    ensures WellFormed(ClockPrefix(trace, totalFrames, n), totalFrames)
    decreases n, 1
  {
    if n > 0 {
      ClockPrefixWellFormed(trace, totalFrames, n - 1);
      ClockStepWellFormed(ClockPrefix(trace, totalFrames, n - 1), totalFrames, trace[n - 1]);
    }
  }

  function ClockRun(trace: seq<string>, totalFrames: int): ClockState
    requires totalFrames >= 1
  {
    ClockPrefix(trace, totalFrames, |trace|)
  }

  /** The invariant of the frame array: the nil slots form a suffix, the
      map sends each resident page to the slot holding it, each slot in use
      is the map's entry for its page (so no page is in two slots), and
      every resident frame was loaded once. */
  ghost predicate Shaped(st: ClockState, totalFrames: int) {
    && WellFormed(st, totalFrames)
    && (forall a, b :: 0 <= a < b < |st.frames| && st.frames[a].None? ==> st.frames[b].None?)
    && (forall p :: p in st.pageToFrame ==> st.frames[st.pageToFrame[p]].value.pageId == p)
    && (forall j :: 0 <= j < |st.frames| && st.frames[j].Some? ==>
          st.frames[j].value.pageId in st.pageToFrame && st.pageToFrame[st.frames[j].value.pageId] == j)
    && (forall j :: 0 <= j < |st.frames| && st.frames[j].Some? ==> st.frames[j].value.loadCount == 1)
  }

  ghost predicate ClockValid(trace: seq<string>, totalFrames: int, n: nat, st: ClockState)
    requires n <= |trace|
  {
    && Shaped(st, totalFrames)
    && Accounted(n, Seen(trace, n), st.pageToFrame.Keys, st.pageFaults, st.pageLoadCount)
  }

  lemma HitKeepsShape(st: ClockState, totalFrames: int, p: string)
    requires totalFrames >= 1 && Shaped(st, totalFrames) && p in st.pageToFrame
    ensures Shaped(ClockStep(st, totalFrames, p), totalFrames)
  {
    var r := ClockStep(st, totalFrames, p);
    var v := st.pageToFrame[p];
    assert forall j :: 0 <= j < totalFrames ==>
             r.frames[j].Some? == st.frames[j].Some? &&
             (r.frames[j].Some? ==> r.frames[j].value.pageId == st.frames[j].value.pageId &&
                                    r.frames[j].value.loadCount == st.frames[j].value.loadCount);
  }

  lemma FillKeepsShape(st: ClockState, totalFrames: int, p: string)
    requires totalFrames >= 1 && Shaped(st, totalFrames) && p !in st.pageToFrame
    requires FirstEmpty(st.frames) != -1
    ensures Shaped(ClockStep(st, totalFrames, p), totalFrames)
  {
    FirstEmptySpec(st.frames);
    var e := FirstEmpty(st.frames);
    var r := ClockStep(st, totalFrames, p);
    assert r.frames == st.frames[e := Installed(p)];
    assert r.pageToFrame == st.pageToFrame[p := e];
    forall a, b | 0 <= a < b < |r.frames| && r.frames[a].None?
      ensures r.frames[b].None?
    {
      assert a != e && st.frames[a].None?;
    }
  }

  lemma EvictKeepsShape(st: ClockState, totalFrames: int, p: string)
    requires totalFrames >= 1 && Shaped(st, totalFrames) && p !in st.pageToFrame
    requires FirstEmpty(st.frames) == -1
    ensures Shaped(ClockStep(st, totalFrames, p), totalFrames)
    ensures AllFull(ClockStep(st, totalFrames, p).frames)
  {
    FirstEmptySpec(st.frames);
    var sw := Sweep(st.frames, st.clockPointer);
    SweepKeepsPages(st.frames, st.clockPointer);
    var v := sw.victim;
    EvictedShaped(st, totalFrames, p, sw,
                  ClockState(sw.frames[v := Installed(p)], (st.pageToFrame - {sw.frames[v].value.pageId})[p := v],
                             (v + 1) % totalFrames, st.pageFaults + 1, Inc(st.pageLoadCount, p)));
  }

  /** Installing a non-resident page in the victim slot of a sweep that
      kept every slot's page keeps the frames shaped. */
  lemma EvictedShaped(st: ClockState, totalFrames: int, p: string, sw: SweepResult, r: ClockState)
    requires totalFrames >= 1 && Shaped(st, totalFrames) && p !in st.pageToFrame && AllFull(st.frames)
    requires |sw.frames| == totalFrames && sw.victim < totalFrames && AllFull(sw.frames)
    requires forall k :: 0 <= k < totalFrames ==>
               && sw.frames[k].value.pageId == st.frames[k].value.pageId
               && sw.frames[k].value.loadCount == st.frames[k].value.loadCount
    requires r == ClockState(sw.frames[sw.victim := Installed(p)],
                             (st.pageToFrame - {sw.frames[sw.victim].value.pageId})[p := sw.victim],
                             (sw.victim + 1) % totalFrames, st.pageFaults + 1, Inc(st.pageLoadCount, p))
    ensures Shaped(r, totalFrames)
  {
    var v := sw.victim;
    var q := sw.frames[v].value.pageId;
    assert st.pageToFrame[q] == v;
    forall x | x in r.pageToFrame
      ensures r.frames[r.pageToFrame[x]].value.pageId == x
    {
      if x != p {
        assert st.frames[st.pageToFrame[x]].value.pageId == x;
      }
    }
    forall j | 0 <= j < totalFrames && j != v
      ensures r.frames[j].value.pageId in r.pageToFrame && r.pageToFrame[r.frames[j].value.pageId] == j
    {
      assert st.pageToFrame[st.frames[j].value.pageId] == j;
    }
  }

  lemma ClockStepValid(trace: seq<string>, totalFrames: int, m: nat, st: ClockState)
    requires totalFrames >= 1 && 0 < m <= |trace|
    requires ClockValid(trace, totalFrames, m - 1, st)
    ensures ClockValid(trace, totalFrames, m, ClockStep(st, totalFrames, trace[m - 1]))
  {
    var n := m - 1;
    var p := trace[n];
    var r := ClockStep(st, totalFrames, p);
    if p in st.pageToFrame {
      HitKeepsShape(st, totalFrames, p);
    } else if FirstEmpty(st.frames) != -1 {
      FillKeepsShape(st, totalFrames, p);
    } else {
      EvictKeepsShape(st, totalFrames, p);
    }
    AccountStep(m, Seen(trace, n), st.pageToFrame.Keys, st.pageFaults, st.pageLoadCount, p, r.pageToFrame.Keys);
  }

  lemma ClockInitValid(trace: seq<string>, totalFrames: int)
    requires totalFrames >= 1
    ensures ClockValid(trace, totalFrames, 0, ClockInit(totalFrames))
  {
  }

  lemma {:induction false} ClockPrefixValid(trace: seq<string>, totalFrames: int, n: nat)
    requires totalFrames >= 1 && n <= |trace|
    ensures ClockValid(trace, totalFrames, n, ClockPrefix(trace, totalFrames, n))
  {
    if n > 0 {
      ClockPrefixValid(trace, totalFrames, n - 1);
      ClockStepValid(trace, totalFrames, n, ClockPrefix(trace, totalFrames, n - 1));
    } else {
      ClockInitValid(trace, totalFrames);
    }
  }

  /** The whole run: the fault count is the sum of the load counts, every
      page of the trace was loaded, at most one fault per access, and the
      pointer is on a slot. */
  lemma ClockRunAccounted(trace: seq<string>, totalFrames: int)
    requires totalFrames >= 1
    ensures ClockRun(trace, totalFrames).pageFaults == Total(ClockRun(trace, totalFrames).pageLoadCount)
    ensures ClockRun(trace, totalFrames).pageLoadCount.Keys == Distinct(trace)
    ensures 0 <= ClockRun(trace, totalFrames).pageFaults <= |trace|
    ensures 0 <= ClockRun(trace, totalFrames).clockPointer < totalFrames
  {
    ClockPrefixValid(trace, totalFrames, |trace|);
    SeenAll(trace);
  }

  /** A hit on a page held in slot `j` sets that slot's bit and changes
      nothing else: no other slot, not the map, pointer or counters. */
  lemma ClockHit(st: ClockState, totalFrames: int, j: nat)
    requires totalFrames >= 1 && Shaped(st, totalFrames) && j < totalFrames && st.frames[j].Some?
    ensures ClockStep(st, totalFrames, st.frames[j].value.pageId)
            == st.(frames := st.frames[j := Some(st.frames[j].value.(referenced := true))])
  {
  }

  /** A fault on a page not resident: one more fault and one more load of
      the page, which ends up in a freshly installed frame (bit set, load
      count 1) under its map entry. With a nil slot available it goes to
      the lowest one and the pointer stays; otherwise it replaces the sweep's
      victim and the pointer ends one slot past it. */
  lemma ClockFault(st: ClockState, totalFrames: int, p: string)
    requires totalFrames >= 1 && Shaped(st, totalFrames) && p !in st.pageToFrame
    ensures ClockStep(st, totalFrames, p).pageFaults == st.pageFaults + 1
    ensures ClockStep(st, totalFrames, p).pageLoadCount == Inc(st.pageLoadCount, p)
    ensures p in ClockStep(st, totalFrames, p).pageToFrame
    ensures ClockStep(st, totalFrames, p).frames[ClockStep(st, totalFrames, p).pageToFrame[p]] == Installed(p)
    ensures !AllFull(st.frames) ==>
              && ClockStep(st, totalFrames, p).pageToFrame[p] == FirstEmpty(st.frames)
              && ClockStep(st, totalFrames, p).clockPointer == st.clockPointer
    ensures AllFull(st.frames) ==>
              && ClockStep(st, totalFrames, p).pageToFrame[p] == Sweep(st.frames, st.clockPointer).victim
              && ClockStep(st, totalFrames, p).clockPointer == (ClockStep(st, totalFrames, p).pageToFrame[p] + 1) % totalFrames
    ensures !AllFull(st.frames) ==>
              ClockStep(st, totalFrames, p)
              == ClockState(st.frames[FirstEmpty(st.frames) := Installed(p)], st.pageToFrame[p := FirstEmpty(st.frames)],
                            st.clockPointer, st.pageFaults + 1, Inc(st.pageLoadCount, p))
    ensures AllFull(st.frames) ==>
              ClockStep(st, totalFrames, p)
              == ClockState(Sweep(st.frames, st.clockPointer).frames[Sweep(st.frames, st.clockPointer).victim := Installed(p)],
                            (st.pageToFrame - {st.frames[Sweep(st.frames, st.clockPointer).victim].value.pageId})
                              [p := Sweep(st.frames, st.clockPointer).victim],
                            (Sweep(st.frames, st.clockPointer).victim + 1) % totalFrames,
                            st.pageFaults + 1, Inc(st.pageLoadCount, p))
  {
    FirstEmptySpec(st.frames);
    if AllFull(st.frames) {
      SweepKeepsPages(st.frames, st.clockPointer);
    }
  }

  /** With a single slot, a resident page is the only one mapped. */
  lemma ClockOneSlot(st: ClockState, p: string)
    requires Shaped(st, 1) && p in st.pageToFrame
    ensures st.pageToFrame.Keys == {p}
  {
    forall q | q in st.pageToFrame
      ensures q == p
    {
      assert st.frames[st.pageToFrame[q]].value.pageId == q;
    }
  }

  lemma ClockPrefixShaped(trace: seq<string>, totalFrames: int, n: nat)
    requires totalFrames >= 1 && n <= |trace|
    ensures Shaped(ClockPrefix(trace, totalFrames, n), totalFrames)
  {
    ClockPrefixValid(trace, totalFrames, n);
  }

  /** A fault in a single frame leaves only the new page mapped. */
  lemma ClockOneFrameFault(trace: seq<string>, n: nat)
    requires 1 <= n <= |trace| && trace[n - 1] !in ClockPrefix(trace, 1, n - 1).pageToFrame
    ensures ClockPrefix(trace, 1, n).pageFaults == ClockPrefix(trace, 1, n - 1).pageFaults + 1
    ensures ClockPrefix(trace, 1, n).pageToFrame.Keys == {trace[n - 1]}
  {
    var st := ClockPrefix(trace, 1, n - 1);
    ClockPrefixShaped(trace, 1, n - 1);
    ClockPrefixShaped(trace, 1, n);
    ClockFault(st, 1, trace[n - 1]);
    ClockOneSlot(ClockPrefix(trace, 1, n), trace[n - 1]);
  }

  /** With a single frame, an access faults exactly when its page differs
      from the page accessed just before, and the frame then holds the
      page just accessed. */
  lemma {:induction false} ClockOneFrame(trace: seq<string>, n: nat)
    requires n <= |trace|
    ensures ClockPrefix(trace, 1, n).pageFaults == Changes(trace, n)
    ensures n >= 1 ==> ClockPrefix(trace, 1, n).pageToFrame.Keys == {trace[n - 1]}
  {
    if n > 0 {
      var st := ClockPrefix(trace, 1, n - 1);
      var p := trace[n - 1];
      ClockOneFrame(trace, n - 1);
      ClockPrefixWellFormed(trace, 1, n - 1);
      assert ClockPrefix(trace, 1, n) == ClockStep(st, 1, p);
      if p in st.pageToFrame {
        ClockOneFrameRepeat(trace, n, st);
      } else {
        ClockOneFrameFault(trace, n);
      }
    }
  }

  /** A hit in a single frame repeats the access just before it. */
  lemma ClockOneFrameRepeat(trace: seq<string>, n: nat, st: ClockState)
    requires 1 <= n <= |trace| && st == ClockPrefix(trace, 1, n - 1) && trace[n - 1] in st.pageToFrame
    requires n >= 2 ==> st.pageToFrame.Keys == {trace[n - 2]}
    ensures n >= 2 && trace[n - 1] == trace[n - 2]
  {
  }

  /** The state while no frame has been evicted, given the set `seen` of
      pages accessed so far: the first `|seen|` slots are in use, the rest
      are nil, exactly the pages seen are mapped and counted, and each of
      them faulted once. */
  ghost predicate FilledWith(st: ClockState, seen: set<string>) {
    && (forall j :: 0 <= j < |st.frames| ==> (st.frames[j].Some? <==> j < |seen|))
    && st.pageToFrame.Keys == seen
    && st.pageLoadCount.Keys == seen
    && st.pageFaults == |seen|
    && forall p :: p in st.pageLoadCount ==> st.pageLoadCount[p] == 1
  }

  lemma FilledHit(st: ClockState, totalFrames: int, seen: set<string>, p: string)
    requires totalFrames >= 1 && WellFormed(st, totalFrames) && FilledWith(st, seen) && p in seen
    ensures FilledWith(ClockStep(st, totalFrames, p), seen + {p})
  {
    var r := ClockStep(st, totalFrames, p);
    assert seen + {p} == seen;
    assert forall j :: 0 <= j < totalFrames ==> r.frames[j].Some? == st.frames[j].Some?;
  }

  lemma FilledFault(st: ClockState, totalFrames: int, seen: set<string>, p: string)
    requires totalFrames >= 1 && WellFormed(st, totalFrames) && FilledWith(st, seen)
    requires p !in seen && |seen| < totalFrames
    ensures FilledWith(ClockStep(st, totalFrames, p), seen + {p})
  {
    var d := |seen|;
    FillNext(st, totalFrames, p, d);
    FilledAfterFill(st, totalFrames, seen, p,
                    ClockState(st.frames[d := Installed(p)], st.pageToFrame[p := d], st.clockPointer,
                               st.pageFaults + 1, Inc(st.pageLoadCount, p)));
  }

  lemma FilledAfterFill(st: ClockState, totalFrames: int, seen: set<string>, p: string, r: ClockState)
    requires |st.frames| == totalFrames && FilledWith(st, seen) && p !in seen && |seen| < totalFrames
    requires r == ClockState(st.frames[|seen| := Installed(p)], st.pageToFrame[p := |seen|], st.clockPointer,
                             st.pageFaults + 1, Inc(st.pageLoadCount, p))
    ensures FilledWith(r, seen + {p})
  {
    assert |seen + {p}| == |seen| + 1;
    assert r.pageLoadCount == st.pageLoadCount[p := 1];
  }

  /** With the first `d < totalFrames` slots in use and the rest nil, a
      fault fills slot `d`. */
  lemma FillNext(st: ClockState, totalFrames: int, p: string, d: nat)
    requires totalFrames >= 1 && WellFormed(st, totalFrames) && p !in st.pageToFrame && d < totalFrames
    requires forall j :: 0 <= j < totalFrames ==> (st.frames[j].Some? <==> j < d)
    ensures ClockStep(st, totalFrames, p)
            == ClockState(st.frames[d := Installed(p)], st.pageToFrame[p := d], st.clockPointer,
                          st.pageFaults + 1, Inc(st.pageLoadCount, p))
  {
    FirstEmptySpec(st.frames);
    assert st.frames[d].None?;
    assert FirstEmpty(st.frames) == d;
  }

  lemma FilledStep(trace: seq<string>, totalFrames: int, m: nat, st: ClockState, r: ClockState)
    requires totalFrames >= 1 && 0 < m <= |trace| && |Seen(trace, m)| <= totalFrames
    requires WellFormed(st, totalFrames) && FilledWith(st, Seen(trace, m - 1))
    requires r == ClockStep(st, totalFrames, trace[m - 1])
    ensures FilledWith(r, Seen(trace, m))
  {
    var p := trace[m - 1];
    var seen := Seen(trace, m - 1);
    if p in seen {
      FilledHit(st, totalFrames, seen, p);
    } else {
      NewPageRoom(trace, m, m);
      FilledFault(st, totalFrames, seen, p);
    }
  }

  /** As long as the pages seen in the first `n` accesses fit in the
      frames, nothing has been evicted after them. */
  lemma {:induction false} ClockNoEviction(trace: seq<string>, totalFrames: int, n: nat)
    requires totalFrames >= 1 && n <= |trace| && |Seen(trace, n)| <= totalFrames
    ensures FilledWith(ClockPrefix(trace, totalFrames, n), Seen(trace, n))
  {
    if n > 0 {
      SeenCard(trace, n - 1, n);
      ClockNoEviction(trace, totalFrames, n - 1);
      FilledPrefixStep(trace, totalFrames, n);
    }
  }

  lemma FilledPrefixStep(trace: seq<string>, totalFrames: int, m: nat)
    requires totalFrames >= 1 && 0 < m <= |trace| && |Seen(trace, m)| <= totalFrames
    requires FilledWith(ClockPrefix(trace, totalFrames, m - 1), Seen(trace, m - 1))
    ensures FilledWith(ClockPrefix(trace, totalFrames, m), Seen(trace, m))
  {
    var st := ClockPrefix(trace, totalFrames, m - 1);
    ClockPrefixWellFormed(trace, totalFrames, m - 1);
    assert ClockPrefix(trace, totalFrames, m) == ClockStep(st, totalFrames, trace[m - 1]);
    FilledStep(trace, totalFrames, m, st, ClockPrefix(trace, totalFrames, m));
  }

  /** With at least as many frames as distinct pages the clock never
      sweeps: each page faults exactly once. */
  lemma ClockEnoughFrames(trace: seq<string>, totalFrames: int)
    requires totalFrames >= 1 && totalFrames >= |Distinct(trace)|
    ensures ClockRun(trace, totalFrames).pageFaults == |Distinct(trace)|
    ensures forall p :: p in ClockRun(trace, totalFrames).pageLoadCount ==> ClockRun(trace, totalFrames).pageLoadCount[p] == 1
  {
    SeenAll(trace);
    ClockNoEviction(trace, totalFrames, |trace|);
  }

  /** The empty-frame search of main.go:209-215: the lowest nil slot, or -1. */
  method FindEmptyFrame(frames: array<Option<PageFrame>>) returns (emptyFrame: int)
    ensures emptyFrame == FirstEmpty(frames[..])
  {
    emptyFrame := -1;
    var j := 0;
    while j < frames.Length
      invariant 0 <= j <= frames.Length
      invariant FirstEmptyFrom(frames[..], j) == FirstEmpty(frames[..])
    {
      if frames[j].None? {
        emptyFrame := j;
        break;
      }
      j := j + 1;
    }
  }

  /** The sweep of main.go:227-246 on the frame array in place: while the
      frame under the pointer is referenced, clear its bit and advance;
      the slot where it stops is the victim. */
  method SecondChance(frames: array<Option<PageFrame>>, clockPointer: int) returns (victim: int)
    requires AllFull(frames[..]) && 0 <= clockPointer < frames.Length
    modifies frames
    ensures frames[..] == Sweep(old(frames[..]), clockPointer).frames
    ensures victim == Sweep(old(frames[..]), clockPointer).victim
  {
    victim := clockPointer;
    while frames[victim].value.referenced
      invariant 0 <= victim < frames.Length && AllFull(frames[..])
      invariant Sweep(frames[..], victim).frames == Sweep(old(frames[..]), clockPointer).frames
      invariant Sweep(frames[..], victim).victim == Sweep(old(frames[..]), clockPointer).victim
      decreases RefCount(frames[..])
    {
      ClearDecreases(frames[..], victim);
      frames[victim] := Cleared(frames[victim]);
      victim := (victim + 1) % frames.Length;
    }
  }

  /** One pass of the loop of main.go:192-254, on the frame array in
      place and the other locals passed in and out: a hit sets the frame's
      bit; a fault counts a load, then fills the lowest nil slot or sweeps
      for a victim, replaces it and moves the pointer one slot past it. */
  method Access(frames: array<Option<PageFrame>>, pageToFrame: map<string, int>, clockPointer: int,
                pageFaults: int, pageLoadCount: Counter, pageID: string)
    returns (newPageToFrame: map<string, int>, newClockPointer: int, newPageFaults: int, newPageLoadCount: Counter)
    requires frames.Length >= 1
    requires WellFormed(ClockState(frames[..], pageToFrame, clockPointer, pageFaults, pageLoadCount), frames.Length)
    modifies frames
    ensures ClockState(frames[..], newPageToFrame, newClockPointer, newPageFaults, newPageLoadCount)
            == ClockStep(ClockState(old(frames[..]), pageToFrame, clockPointer, pageFaults, pageLoadCount),
                         frames.Length, pageID)
  {
    newPageToFrame, newClockPointer := pageToFrame, clockPointer;
    newPageFaults, newPageLoadCount := pageFaults, pageLoadCount;
    if pageID in pageToFrame {
      var frameIndex := pageToFrame[pageID];
      frames[frameIndex] := Some(frames[frameIndex].value.(referenced := true));
      return;
    }
    newPageFaults := pageFaults + 1;
    newPageLoadCount := Inc(pageLoadCount, pageID);

    var emptyFrame := FindEmptyFrame(frames);
    FirstEmptySpec(frames[..]);
    if emptyFrame != -1 {
      frames[emptyFrame] := Installed(pageID);
      newPageToFrame := pageToFrame[pageID := emptyFrame];
    } else {
      var victim := SecondChance(frames, clockPointer);
      var oldPageID := frames[victim].value.pageId;
      newPageToFrame := pageToFrame - {oldPageID};
      frames[victim] := Installed(pageID);
      newPageToFrame := newPageToFrame[pageID := victim];
      newClockPointer := (victim + 1) % frames.Length;
    }
  }

  /** `Simulator.ClockAlgorithm` (main.go:183-257) on a trace of page IDs
      and a frame count: returns the number of page faults and the per-page
      load counts. */
  method Simulate(accesses: seq<string>, totalFrames: int) returns (pageFaults: int, pageLoadCount: Counter)
    requires totalFrames >= 1
    ensures pageFaults == ClockRun(accesses, totalFrames).pageFaults
    ensures pageLoadCount == ClockRun(accesses, totalFrames).pageLoadCount
    ensures pageFaults == Total(pageLoadCount)
    ensures pageLoadCount.Keys == Distinct(accesses)
  {
    var frames := new Option<PageFrame>[totalFrames](_ => None);
    var pageToFrame: map<string, int> := map[];
    var clockPointer := 0;
    pageFaults := 0;
    pageLoadCount := map[];
    assert frames[..] == seq(totalFrames, _ => None);

    for i := 0 to |accesses|
      invariant ClockState(frames[..], pageToFrame, clockPointer, pageFaults, pageLoadCount)
                == ClockPrefix(accesses, totalFrames, i)
    {
      ClockPrefixWellFormed(accesses, totalFrames, i);
      pageToFrame, clockPointer, pageFaults, pageLoadCount :=
        Access(frames, pageToFrame, clockPointer, pageFaults, pageLoadCount, accesses[i]);
    }
    assert frames[..] == ClockRun(accesses, totalFrames).frames;
    ClockRunAccounted(accesses, totalFrames);
  }
}
