/** The optimal (Belady) policy of `Simulator.OptimalAlgorithm`: on a fault
    with every frame in use, evict the resident page whose next use lies
    farthest in the future, a page never used again first, ties going to
    the lowest frame index. */
module Optimal {
  import opened Paging
  import opened NextUse

  /** The local state of the Go loop: the resident pages in frame order
      (a slice that only grows by append), the page -> frame index map,
      the fault counter and the per-page load counter. */
  datatype OptState = OptState(frames: seq<string>, frameMap: map<string, int>,
                               pageFaults: int, pageLoadCount: Counter)

  /** Position of the next use of `p` strictly after position `i`;
      `|trace|` when `p` is not used again. */
  function NextUseAfter(trace: seq<string>, p: string, i: nat): int
    requires i < |trace|
  {
    NextOccurrence(trace, p, i + 1)
  }

  /** The frame the victim scan settles on when it looks at frames[..upto]:
      the first frame whose next use is strictly farther than every frame
      before it. */
  function FarthestIn(trace: seq<string>, frames: seq<string>, i: nat, upto: nat): (r: nat)
    requires i < |trace| && 1 <= upto <= |frames|
    ensures r < upto
  {
    if upto == 1 then 0
    else
      var best := FarthestIn(trace, frames, i, upto - 1);
      if NextUseAfter(trace, frames[upto - 1], i) > NextUseAfter(trace, frames[best], i)
      then upto - 1 else best
  }

  /** The scan keeps a frame whose next use is the farthest among
      frames[..upto], and no frame before it is as far. */
  lemma {:induction false} FarthestInSpec(trace: seq<string>, frames: seq<string>, i: nat, upto: nat)
    requires i < |trace| && 1 <= upto <= |frames|
    ensures forall j :: 0 <= j < upto ==>
              NextUseAfter(trace, frames[j], i) <= NextUseAfter(trace, frames[FarthestIn(trace, frames, i, upto)], i)
    ensures forall j :: 0 <= j < FarthestIn(trace, frames, i, upto) ==>
              NextUseAfter(trace, frames[j], i) < NextUseAfter(trace, frames[FarthestIn(trace, frames, i, upto)], i)
  {
    if upto > 1 {
      FarthestInSpec(trace, frames, i, upto - 1);
    }
  }

  /** The frame evicted on a fault at position `i` with all frames in use. */
  function Victim(trace: seq<string>, frames: seq<string>, i: nat): (r: nat)
    requires i < |trace| && 1 <= |frames|
    ensures r < |frames|
  {
    FarthestIn(trace, frames, i, |frames|)
  }

  /** The victim rule: the lowest frame whose page is never used again if
      there is one, and otherwise the lowest frame whose next use is the
      farthest. */
  lemma VictimRule(trace: seq<string>, frames: seq<string>, i: nat)
    requires i < |trace| && 1 <= |frames|
    ensures Victim(trace, frames, i) < |frames|
    ensures (exists j :: 0 <= j < |frames| && NextUseAfter(trace, frames[j], i) == |trace|) ==>
              && NextUseAfter(trace, frames[Victim(trace, frames, i)], i) == |trace|
              && forall j :: 0 <= j < Victim(trace, frames, i) ==> NextUseAfter(trace, frames[j], i) < |trace|
    ensures (forall j :: 0 <= j < |frames| ==> NextUseAfter(trace, frames[j], i) < |trace|) ==>
              && (forall j :: 0 <= j < |frames| ==>
                    NextUseAfter(trace, frames[j], i) <= NextUseAfter(trace, frames[Victim(trace, frames, i)], i))
              && (forall j :: 0 <= j < Victim(trace, frames, i) ==>
                    NextUseAfter(trace, frames[j], i) < NextUseAfter(trace, frames[Victim(trace, frames, i)], i))
  {
    var v := Victim(trace, frames, i);
    FarthestInSpec(trace, frames, i, |frames|);
    assert NextUseAfter(trace, frames[v], i) <= |trace|;
  }

  /** Once the scan meets a page that is never used again, no later frame
      can displace it: this is why the Go loop may stop there. */
  lemma {:induction false} FarthestStable(trace: seq<string>, frames: seq<string>, i: nat, k: nat, m: nat)
    requires i < |trace| && 1 <= k <= m <= |frames|
    requires NextUseAfter(trace, frames[FarthestIn(trace, frames, i, k)], i) == |trace|
    ensures FarthestIn(trace, frames, i, m) == FarthestIn(trace, frames, i, k)
    decreases m
  {
    if m > k {
      FarthestStable(trace, frames, i, k, m - 1);
      assert NextUseAfter(trace, frames[m - 1], i) <= |trace|;
    }
  }

  /** One access at position `i` (main.go:128-177). */
  function OptStep(trace: seq<string>, totalFrames: int, st: OptState, i: nat): (r: OptState)
    requires totalFrames >= 1 && i < |trace|
    ensures trace[i] in r.frameMap
    ensures r.pageFaults == st.pageFaults + (if trace[i] in st.frameMap then 0 else 1)
    ensures |r.frames| == (if trace[i] !in st.frameMap && |st.frames| < totalFrames then |st.frames| + 1 else |st.frames|)
  {
    var pageID := trace[i];
    if pageID in st.frameMap then st
    else
      var faults := st.pageFaults + 1;
      var loads := Inc(st.pageLoadCount, pageID);
      if |st.frames| < totalFrames then
        OptState(st.frames + [pageID], st.frameMap[pageID := |st.frames|], faults, loads)
      else
        var victimFrame := Victim(trace, st.frames, i);
        var victimPage := st.frames[victimFrame];
        OptState(st.frames[victimFrame := pageID], (st.frameMap - {victimPage})[pageID := victimFrame],
                 faults, loads)
  }

  /** The state after replaying the first `n` accesses from empty frames. */
  function OptPrefix(trace: seq<string>, totalFrames: int, n: nat): OptState
    requires totalFrames >= 1 && n <= |trace|
  {
    if n == 0 then OptState([], map[], 0, map[])
    else OptStep(trace, totalFrames, OptPrefix(trace, totalFrames, n - 1), n - 1)
  }

  function OptRun(trace: seq<string>, totalFrames: int): OptState
    requires totalFrames >= 1
  {
    OptPrefix(trace, totalFrames, |trace|)
  }

  /** What holds of the state after every access: at most `totalFrames`
      resident pages, no page in two frames, `frameMap` maps exactly the
      resident pages to their frame index, and the counters account for
      the accesses seen. */
  ghost predicate OptValid(trace: seq<string>, totalFrames: int, n: nat, st: OptState)
    requires n <= |trace|
  {
    && |st.frames| <= totalFrames
    && Indexed(st.frames, st.frameMap)
    && Accounted(n, Seen(trace, n), st.frameMap.Keys, st.pageFaults, st.pageLoadCount)
  }

  lemma OptStepValid(trace: seq<string>, totalFrames: int, m: nat, st: OptState)
    requires totalFrames >= 1 && 0 < m <= |trace|
    requires OptValid(trace, totalFrames, m - 1, st)
    ensures OptValid(trace, totalFrames, m, OptStep(trace, totalFrames, st, m - 1))
  {
    var n := m - 1;
    var p := trace[n];
    var r := OptStep(trace, totalFrames, st, n);
    if p in st.frameMap {
    } else if |st.frames| < totalFrames {
      FillKeepsFrames(st.frames, st.frameMap, p);
    } else {
      EvictKeepsFrames(st.frames, st.frameMap, p, Victim(trace, st.frames, n));
    }
    AccountStep(m, Seen(trace, n), st.frameMap.Keys, st.pageFaults, st.pageLoadCount, p, r.frameMap.Keys);
  }

  /** Frames without duplicates, with a map from each resident page to its index. */
  ghost predicate Indexed(frames: seq<string>, frameMap: map<string, int>) {
    && (forall a, b :: 0 <= a < b < |frames| ==> frames[a] != frames[b])
    && frameMap.Keys == Distinct(frames)
    && (forall j :: 0 <= j < |frames| ==> frames[j] in frameMap && frameMap[frames[j]] == j)
  }

  /** main.go:140-142: appending a non-resident page keeps the frames indexed. */
  lemma FillKeepsFrames(frames: seq<string>, frameMap: map<string, int>, p: string)
    requires Indexed(frames, frameMap) && p !in frameMap
    ensures Indexed(frames + [p], frameMap[p := |frames|])
  {
    DistinctSnoc(frames, p);
    var r := frames + [p];
    assert forall j :: 0 <= j < |frames| ==> r[j] == frames[j] && frames[j] in Distinct(frames);
  }

  /** main.go:171-176: overwriting frame `v` with a non-resident page and
      moving the map entry keeps the frames indexed. */
  lemma EvictKeepsFrames(frames: seq<string>, frameMap: map<string, int>, p: string, v: nat)
    requires Indexed(frames, frameMap) && p !in frameMap && v < |frames|
    ensures Indexed(frames[v := p], (frameMap - {frames[v]})[p := v])
  {
    var q := frames[v];
    var r := frames[v := p];
    assert forall j :: 0 <= j < |frames| ==> frames[j] in Distinct(frames);
    assert forall j :: 0 <= j < |frames| && j != v ==> frames[j] != q;
    assert Distinct(r) == Distinct(frames) - {q} + {p} by {
      forall x
        ensures x in r <==> (x in frames && x != q) || x == p
      {
        if x in frames && x != q {
          var j :| 0 <= j < |frames| && frames[j] == x;
          assert r[j] == x;
        }
        assert r[v] == p;
      }
    }
  }

  lemma {:induction false} OptPrefixValid(trace: seq<string>, totalFrames: int, n: nat)
    requires totalFrames >= 1 && n <= |trace|
    ensures OptValid(trace, totalFrames, n, OptPrefix(trace, totalFrames, n))
  {
    if n > 0 {
      var st := OptPrefix(trace, totalFrames, n - 1);
      OptPrefixValid(trace, totalFrames, n - 1);
      OptStepValid(trace, totalFrames, n, st);
    } else {
      OptInitValid(trace, totalFrames);
    }
  }

  lemma OptInitValid(trace: seq<string>, totalFrames: int)
    requires totalFrames >= 1
    ensures OptValid(trace, totalFrames, 0, OptState([], map[], 0, map[]))
  {
    assert Distinct([]) == {};
  }

  /** The whole run: the fault count is the sum of the load counts, every
      page of the trace was loaded at least once, and there was at most
      one fault per access. */
  lemma OptRunAccounted(trace: seq<string>, totalFrames: int)
    requires totalFrames >= 1
    ensures OptRun(trace, totalFrames).pageFaults == Total(OptRun(trace, totalFrames).pageLoadCount)
    ensures OptRun(trace, totalFrames).pageLoadCount.Keys == Distinct(trace)
    ensures 0 <= OptRun(trace, totalFrames).pageFaults <= |trace|
    ensures |OptRun(trace, totalFrames).frames| <= totalFrames
  {
    OptPrefixValid(trace, totalFrames, |trace|);
    SeenAll(trace);
  }

  /** How one access changes a valid state, told by frame contents: a hit
      changes nothing; a fault with a free frame appends the page; a fault
      with all frames in use puts the page in the victim's frame. Each
      fault adds one load of the page. */
  lemma OptStepCases(trace: seq<string>, totalFrames: int, n: nat, st: OptState)
    requires totalFrames >= 1 && n < |trace|
    requires OptValid(trace, totalFrames, n, st)
    ensures trace[n] in st.frames ==> OptStep(trace, totalFrames, st, n) == st
    ensures trace[n] !in st.frames ==>
              && OptStep(trace, totalFrames, st, n).pageFaults == st.pageFaults + 1
              && OptStep(trace, totalFrames, st, n).pageLoadCount == Inc(st.pageLoadCount, trace[n])
    ensures trace[n] !in st.frames && |st.frames| < totalFrames ==>
              OptStep(trace, totalFrames, st, n).frames == st.frames + [trace[n]]
    ensures trace[n] !in st.frames && |st.frames| == totalFrames ==>
              OptStep(trace, totalFrames, st, n).frames == st.frames[Victim(trace, st.frames, n) := trace[n]]
  {
    assert trace[n] in st.frames <==> trace[n] in Distinct(st.frames);
  }

  /** With at least as many frames as distinct pages nothing is ever
      evicted: each page faults exactly once. */
  lemma OptEnoughFrames(trace: seq<string>, totalFrames: int)
    requires totalFrames >= 1 && totalFrames >= |Distinct(trace)|
    ensures OptRun(trace, totalFrames).pageFaults == |Distinct(trace)|
    ensures forall p :: p in OptRun(trace, totalFrames).pageLoadCount ==> OptRun(trace, totalFrames).pageLoadCount[p] == 1
  {
    SeenAll(trace);
    OptNoEviction(trace, totalFrames, |trace|);
  }

  /** With at most one frame, a resident page is the only one mapped. */
  lemma OptOneSlot(frames: seq<string>, frameMap: map<string, int>, p: string)
    requires Indexed(frames, frameMap) && |frames| <= 1 && p in frameMap
    ensures frameMap.Keys == {p}
  {
    assert frames == [frames[0]];
    assert Distinct(frames) == {frames[0]};
  }

  /** A fault in a single frame leaves only the new page mapped. */
  lemma OptOneFrameFault(trace: seq<string>, n: nat)
    requires 1 <= n <= |trace| && trace[n - 1] !in OptPrefix(trace, 1, n - 1).frameMap
    ensures OptPrefix(trace, 1, n).pageFaults == OptPrefix(trace, 1, n - 1).pageFaults + 1
    ensures OptPrefix(trace, 1, n).frameMap.Keys == {trace[n - 1]}
  {
    OptPrefixValid(trace, 1, n);
    var r := OptPrefix(trace, 1, n);
    assert trace[n - 1] in r.frameMap;
    OptOneSlot(r.frames, r.frameMap, trace[n - 1]);
  }

  /** A hit in a single frame repeats the access just before it. */
  lemma OptOneFrameRepeat(trace: seq<string>, n: nat, st: OptState)
    requires 1 <= n <= |trace| && st == OptPrefix(trace, 1, n - 1) && trace[n - 1] in st.frameMap
    requires n >= 2 ==> st.frameMap.Keys == {trace[n - 2]}
    ensures n >= 2 && trace[n - 1] == trace[n - 2]
  {
  }

  /** With a single frame, an access faults exactly when its page differs
      from the page accessed just before, and the frame then holds the
      page just accessed. */
  lemma {:induction false} OptOneFrame(trace: seq<string>, n: nat)
    requires n <= |trace|
    ensures OptPrefix(trace, 1, n).pageFaults == Changes(trace, n)
    ensures n >= 1 ==> OptPrefix(trace, 1, n).frameMap.Keys == {trace[n - 1]}
  {
    if n > 0 {
      var st := OptPrefix(trace, 1, n - 1);
      OptOneFrame(trace, n - 1);
      if trace[n - 1] in st.frameMap {
        OptOneFrameRepeat(trace, n, st);
      } else {
        OptOneFrameFault(trace, n);
      }
    }
  }

  /** The state while nothing has been evicted, given the set `seen` of
      pages accessed so far: exactly those pages are resident and counted,
      one frame each, and each of them faulted once. */
  ghost predicate NothingEvicted(st: OptState, seen: set<string>) {
    && st.frameMap.Keys == seen
    && st.pageLoadCount.Keys == seen
    && |st.frames| == |seen|
    && st.pageFaults == |seen|
    && forall p :: p in st.pageLoadCount ==> st.pageLoadCount[p] == 1
  }

  lemma NothingEvictedFault(st: OptState, seen: set<string>, p: string, r: OptState)
    requires NothingEvicted(st, seen) && p !in seen
    requires r == OptState(st.frames + [p], st.frameMap[p := |st.frames|], st.pageFaults + 1, Inc(st.pageLoadCount, p))
    ensures NothingEvicted(r, seen + {p})
  {
    assert |seen + {p}| == |seen| + 1;
    assert r.pageLoadCount == st.pageLoadCount[p := 1];
  }

  lemma NothingEvictedStep(trace: seq<string>, totalFrames: int, m: nat)
    requires totalFrames >= 1 && 0 < m <= |trace| && |Seen(trace, m)| <= totalFrames
    requires NothingEvicted(OptPrefix(trace, totalFrames, m - 1), Seen(trace, m - 1))
    ensures NothingEvicted(OptPrefix(trace, totalFrames, m), Seen(trace, m))
  {
    var n := m - 1;
    var st := OptPrefix(trace, totalFrames, n);
    var p := trace[n];
    var seen := Seen(trace, n);
    assert OptPrefix(trace, totalFrames, m) == OptStep(trace, totalFrames, st, n);
    assert Seen(trace, m) == seen + {p};
    if p in seen {
      assert seen + {p} == seen;
    } else {
      NewPageRoom(trace, m, m);
      NothingEvictedFault(st, seen, p, OptStep(trace, totalFrames, st, n));
    }
  }

  /** As long as the pages seen in the first `n` accesses fit in the
      frames, nothing has been evicted after them. */
  lemma {:induction false} OptNoEviction(trace: seq<string>, totalFrames: int, n: nat)
    requires totalFrames >= 1 && n <= |trace| && |Seen(trace, n)| <= totalFrames
    ensures NothingEvicted(OptPrefix(trace, totalFrames, n), Seen(trace, n))
  {
    if n > 0 {
      SeenCard(trace, n - 1, n);
      OptNoEviction(trace, totalFrames, n - 1);
      NothingEvictedStep(trace, totalFrames, n);
    }
  }

  /** The lookup of main.go:148-158: binary-search the position list of
      `p` for `i + 1`; running off the end means `p` is not used again. */
  method FindNextUse(trace: seq<string>, nextUse: map<string, seq<int>>, p: string, i: nat)
    returns (nextPos: int)
    requires i < |trace|
    requires forall q :: Lookup(nextUse, q) == Positions(trace, q)
    ensures nextPos == NextUseAfter(trace, p, i)
  {
    var positions := Lookup(nextUse, p);
    PositionsInSpec(trace, p, |trace|);
    var searchIndex := SearchInts(positions, i + 1);
    if searchIndex == |positions| {
      nextPos := |trace|;
    } else {
      nextPos := positions[searchIndex];
    }
    SearchFindsNextUse(trace, p, i, searchIndex);
  }

  /** The victim scan of main.go:144-168: find each resident page's next
      use after `i`, keep the first strictly farther one, stop at a page
      that is never used again. */
  method SelectVictim(trace: seq<string>, nextUse: map<string, seq<int>>, frames: seq<string>, i: nat)
    returns (victimFrame: int)
    requires i < |trace| && 1 <= |frames|
    requires forall p :: Lookup(nextUse, p) == Positions(trace, p)
    ensures victimFrame == Victim(trace, frames, i)
  {
    var farthestNextUse := -1;
    victimFrame := -1;
    var frameIdx := 0;
    while frameIdx < |frames|
      invariant 0 <= frameIdx <= |frames|
      invariant frameIdx == 0 ==> farthestNextUse == -1
      invariant frameIdx > 0 ==> && victimFrame == FarthestIn(trace, frames, i, frameIdx)
                                 && farthestNextUse == NextUseAfter(trace, frames[victimFrame], i)
                                 && farthestNextUse < |trace|
    {
      var nextPos := FindNextUse(trace, nextUse, frames[frameIdx], i);
      if nextPos > farthestNextUse {
        farthestNextUse := nextPos;
        victimFrame := frameIdx;
      }
      if nextPos == |trace| {
        FarthestStable(trace, frames, i, frameIdx + 1, |frames|);
        break;
      }
      frameIdx := frameIdx + 1;
    }
  }

  /** `Simulator.OptimalAlgorithm` (main.go:116-180) on a trace of page IDs
      and a frame count: returns the number of page faults and the per-page
      load counts. */
  method Simulate(accesses: seq<string>, totalFrames: int) returns (pageFaults: int, pageLoadCount: Counter)
    requires totalFrames >= 1
    ensures pageFaults == OptRun(accesses, totalFrames).pageFaults
    ensures pageLoadCount == OptRun(accesses, totalFrames).pageLoadCount
    ensures pageFaults == Total(pageLoadCount)
    ensures pageLoadCount.Keys == Distinct(accesses)
  {
    var frames: seq<string> := [];
    var frameMap: map<string, int> := map[];
    pageFaults := 0;
    pageLoadCount := map[];

    var nextUse := BuildNextUse(accesses);

    for i := 0 to |accesses|
      invariant OptState(frames, frameMap, pageFaults, pageLoadCount) == OptPrefix(accesses, totalFrames, i)
    {
      var pageID := accesses[i];
      if pageID in frameMap {
        continue;
      }
      pageFaults := pageFaults + 1;
      pageLoadCount := Inc(pageLoadCount, pageID);
      if |frames| < totalFrames {
        frames := frames + [pageID];
        frameMap := frameMap[pageID := |frames| - 1];
      } else {
        var victimFrame := SelectVictim(accesses, nextUse, frames, i);
        var victimPage := frames[victimFrame];
        frameMap := frameMap - {victimPage};
        frames := frames[victimFrame := pageID];
        frameMap := frameMap[pageID := victimFrame];
      }
    }
    OptRunAccounted(accesses, totalFrames);
  }
}
