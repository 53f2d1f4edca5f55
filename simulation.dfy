/** The simulator object: physical memory split into 4 KB frames, the loaded
    access trace, and the run that replays the trace under the optimal and
    the clock policy. */
module Simulation {
  import opened Paging
  import opened Trace
  import Optimal
  import Clock

  /** Go's `memorySize / PAGE_SIZE`: integer division truncating toward zero
      (Dafny's `/` rounds toward minus infinity for negative operands). */
  function FramesFor(memorySize: int): (r: int)
    ensures memorySize >= 0 ==> 0 <= r && r * PAGE_SIZE <= memorySize < (r + 1) * PAGE_SIZE
    ensures memorySize < 0 ==> r <= 0 && (r - 1) * PAGE_SIZE < memorySize <= r * PAGE_SIZE
  {
    if memorySize >= 0 then memorySize / PAGE_SIZE else -((-memorySize) / PAGE_SIZE)
  }

  /** No frame at all exactly when less than one page fits, on either side
      of zero; at least one frame exactly when a whole page fits. */
  lemma FramesForZero(memorySize: int)
    ensures FramesFor(memorySize) == 0 <==> -PAGE_SIZE < memorySize < PAGE_SIZE
    ensures FramesFor(memorySize) >= 1 <==> memorySize >= PAGE_SIZE
  {
  }

  /** The outcome of loading a trace: the error of main.go:106-108 when no
      valid access has been read. */
  datatype LoadOutcome = Loaded | NoValidAccess

  /** The outcome of a run: the refusal for a memory without a frame, or the
      fault counts of both policies (-1 for a skipped optimal run). */
  datatype RunOutcome = InsufficientMemory | Completed(optimalFaults: int, clockFaults: int)

  class Simulator {
    var memorySize: int
    var totalFrames: int
    var accesses: seq<PageAccess>
    var distinctPages: set<string>
    var pageLoadCount: Counter
    var skipOptimal: bool

    /** The frame count follows the memory size, and the distinct pages are
        exactly the pages of the loaded accesses. */
    ghost predicate Valid()
      reads this
    {
      && totalFrames == FramesFor(memorySize)
      && distinctPages == Distinct(PageIds(accesses))
    }

    /** NewSimulator: no access loaded, no load counted. */
    constructor (memorySize: int)
      ensures Valid()
      ensures this.memorySize == memorySize && totalFrames == FramesFor(memorySize)
      ensures accesses == [] && distinctPages == {} && pageLoadCount == map[] && !skipOptimal
    {
      this.memorySize := memorySize;
      totalFrames := FramesFor(memorySize);
      accesses := [];
      distinctPages := {};
      pageLoadCount := map[];
      skipOptimal := false;
    }

    /** Reads a trace, one line (split into its fields) at a time, appending
        every accepted access to those already loaded and recording its page
        as distinct; fails when no access has been loaded at all. */
    method LoadAccessFile(lines: seq<seq<string>>) returns (outcome: LoadOutcome)
      requires Valid()
      modifies this`accesses, this`distinctPages
      ensures Valid()
      ensures accesses == old(accesses) + AcceptedAccesses(lines)
      ensures distinctPages == old(distinctPages) + Distinct(PageIds(AcceptedAccesses(lines)))
      ensures outcome == NoValidAccess <==> accesses == []
    {
      var loaded: seq<PageAccess> := [];
      var pages: set<string> := {};
      for i := 0 to |lines|
        invariant loaded == AcceptedAccesses(lines[..i])
        invariant pages == Distinct(PageIds(loaded))
        invariant accesses == old(accesses) && distinctPages == old(distinctPages)
      {
        var parsed := ParseLine(lines[i]);
        LoadStep(lines, i, loaded);
        if parsed.Some? {
          loaded := loaded + [parsed.value];
          pages := pages + {parsed.value.pageId};
        }
      }
      assert lines[..|lines|] == lines;
      PageIdsAppend(accesses, loaded);
      DistinctAppend(PageIds(accesses), PageIds(loaded));
      accesses := accesses + loaded;
      distinctPages := distinctPages + pages;
      if |accesses| == 0 {
        outcome := NoValidAccess;
      } else {
        outcome := Loaded;
      }
    }

    /** The optimal policy over the loaded accesses; the load counter is
        replaced by this run's. */
    method OptimalAlgorithm() returns (pageFaults: int)
      requires Valid() && totalFrames >= 1
      modifies this`pageLoadCount
      ensures Valid()
      ensures pageFaults == Optimal.OptRun(PageIds(accesses), totalFrames).pageFaults
      ensures pageLoadCount == Optimal.OptRun(PageIds(accesses), totalFrames).pageLoadCount
    {
      pageFaults, pageLoadCount := Optimal.Simulate(PageIds(accesses), totalFrames);
    }

    /** The clock policy over the loaded accesses; the load counter is
        replaced by this run's. */
    method ClockAlgorithm() returns (pageFaults: int)
      requires Valid() && totalFrames >= 1
      modifies this`pageLoadCount
      ensures Valid()
      ensures pageFaults == Clock.ClockRun(PageIds(accesses), totalFrames).pageFaults
      ensures pageLoadCount == Clock.ClockRun(PageIds(accesses), totalFrames).pageLoadCount
    {
      pageFaults, pageLoadCount := Clock.Simulate(PageIds(accesses), totalFrames);
    }

    /** Refuses a memory without a frame; otherwise runs the optimal policy
        unless it is skipped (reporting -1), then the clock policy, whose
        load counts remain: one entry per distinct page, summing to the
        clock's faults. */
    method Run() returns (outcome: RunOutcome)
      requires Valid() && totalFrames >= 0
      modifies this`pageLoadCount
      ensures Valid()
      ensures totalFrames == 0 ==> outcome == InsufficientMemory && pageLoadCount == old(pageLoadCount)
      ensures totalFrames >= 1 ==>
                outcome == Completed(
                  if skipOptimal then -1 else Optimal.OptRun(PageIds(accesses), totalFrames).pageFaults,
                  Clock.ClockRun(PageIds(accesses), totalFrames).pageFaults)
                && pageLoadCount == Clock.ClockRun(PageIds(accesses), totalFrames).pageLoadCount
      ensures outcome.Completed? ==>
                outcome.clockFaults == Total(pageLoadCount) && pageLoadCount.Keys == distinctPages
                && 0 <= outcome.clockFaults <= |accesses|
    {
      if totalFrames == 0 {
        return InsufficientMemory;
      }
      var optimalFaults := -1;
      if !skipOptimal {
        optimalFaults := OptimalAlgorithm();
      }
      var clockFaults := ClockAlgorithm();
      Clock.ClockRunAccounted(PageIds(accesses), totalFrames);
      outcome := Completed(optimalFaults, clockFaults);
    }
  }

  /** Reading line `i` extends the accesses read so far by what that line
      yields, and the distinct pages by its page. */
  lemma LoadStep(lines: seq<seq<string>>, i: nat, loaded: seq<PageAccess>)
    requires i < |lines| && loaded == AcceptedAccesses(lines[..i])
    ensures ParseLine(lines[i]).None? ==> AcceptedAccesses(lines[..i + 1]) == loaded
    ensures ParseLine(lines[i]).Some? ==>
              AcceptedAccesses(lines[..i + 1]) == loaded + [ParseLine(lines[i]).value]
              && Distinct(PageIds(loaded + [ParseLine(lines[i]).value]))
                 == Distinct(PageIds(loaded)) + {ParseLine(lines[i]).value.pageId}
  {
    assert lines[..i + 1][..i] == lines[..i];
    if ParseLine(lines[i]).Some? {
      PageIdsSnoc(loaded, ParseLine(lines[i]).value);
      DistinctSnoc(PageIds(loaded), ParseLine(lines[i]).value.pageId);
    }
  }

  lemma PageIdsSnoc(accesses: seq<PageAccess>, a: PageAccess)
    ensures PageIds(accesses + [a]) == PageIds(accesses) + [a.pageId]
  {
    assert (accesses + [a])[..|accesses|] == accesses;
  }

  /** The page IDs of two loads in a row are those of each, in order. */
  lemma {:induction false} PageIdsAppend(a: seq<PageAccess>, b: seq<PageAccess>)
    ensures PageIds(a + b) == PageIds(a) + PageIds(b)
  {
    assert |PageIds(a + b)| == |PageIds(a) + PageIds(b)|;
    forall k | 0 <= k < |PageIds(a + b)|
      ensures PageIds(a + b)[k] == (PageIds(a) + PageIds(b))[k]
    {
      if k >= |a| {
        assert (a + b)[k] == b[k - |a|];
      }
    }
  }

  lemma DistinctAppend(s: seq<string>, t: seq<string>)
    ensures Distinct(s + t) == Distinct(s) + Distinct(t)
  {
    assert forall q :: q in s + t <==> q in s || q in t;
  }
}
