/** The lookahead used by the optimal policy: for every page the ascending
    list of trace positions where it occurs, a binary search over such a
    list (Go's `sort.SearchInts`), and the position of a page's next use. */
module NextUse {
  import opened Paging

  /** The positions among the first `n` entries of `trace` that hold page `p`,
      in ascending order. */
  function PositionsIn(trace: seq<string>, p: string, n: nat): (r: seq<int>)
    requires n <= |trace|
    ensures |r| <= n
  {
    if n == 0 then []
    else PositionsIn(trace, p, n - 1) + (if trace[n - 1] == p then [n - 1] else [])
  }

  /** Each list is strictly increasing and holds exactly the positions of
      its page. */
  lemma {:induction false} PositionsInSpec(trace: seq<string>, p: string, n: nat)
    requires n <= |trace|
    ensures forall a :: 0 <= a < |PositionsIn(trace, p, n)| ==> 0 <= PositionsIn(trace, p, n)[a] < n
    ensures forall a, b :: 0 <= a < b < |PositionsIn(trace, p, n)| ==>
              PositionsIn(trace, p, n)[a] < PositionsIn(trace, p, n)[b]
    ensures forall k :: k in PositionsIn(trace, p, n) <==> 0 <= k < n && trace[k] == p
  {
    if n > 0 {
      PositionsInSpec(trace, p, n - 1);
    }
  }

  function Positions(trace: seq<string>, p: string): seq<int> {
    PositionsIn(trace, p, |trace|)
  }

  /** Go's `m[k]` on a map of slices: a missing key reads as the empty slice. */
  function Lookup(m: map<string, seq<int>>, p: string): seq<int> {
    if p in m then m[p] else []
  }

  /** The position of the first occurrence of `p` at or after `from`,
      or `|trace|` when `p` does not occur again. */
  function NextOccurrence(trace: seq<string>, p: string, from: nat): (r: int)
    requires from <= |trace|
    ensures from <= r <= |trace|
    decreases |trace| - from
  {
    if from == |trace| then |trace|
    else if trace[from] == p then from
    else NextOccurrence(trace, p, from + 1)
  }

  /** NextOccurrence is an occurrence of `p` (unless it is `|trace|`) and
      nothing between `from` and it is one; these facts pin it down. */
  lemma {:induction false} NextOccurrenceSpec(trace: seq<string>, p: string, from: nat, r: int)
    requires from <= |trace|
    ensures NextOccurrence(trace, p, from) < |trace| ==> trace[NextOccurrence(trace, p, from)] == p
    ensures forall k :: from <= k < NextOccurrence(trace, p, from) ==> trace[k] != p
    ensures from <= r <= |trace| && (r < |trace| ==> trace[r] == p) && (forall k :: from <= k < r ==> trace[k] != p)
            ==> r == NextOccurrence(trace, p, from)
    decreases |trace| - from
  {
    if from < |trace| && trace[from] != p {
      NextOccurrenceSpec(trace, p, from + 1, r);
    }
  }

  /** The map after appending position `i` to the list of page `p`. */
  function WithPosition(m: map<string, seq<int>>, p: string, i: int): map<string, seq<int>> {
    m[p := Lookup(m, p) + [i]]
  }

  /** Appending position `i` to the list of the page at `i` extends every
      list from the first `i` positions to the first `i + 1`. */
  lemma AppendPosition(trace: seq<string>, before: map<string, seq<int>>, i: nat)
    requires i < |trace|
    requires forall p :: Lookup(before, p) == PositionsIn(trace, p, i)
    ensures forall p :: Lookup(WithPosition(before, trace[i], i), p) == PositionsIn(trace, p, i + 1)
  {
    forall p
      ensures Lookup(WithPosition(before, trace[i], i), p) == PositionsIn(trace, p, i + 1)
    {
      if p != trace[i] {
        assert Lookup(WithPosition(before, trace[i], i), p) == Lookup(before, p);
      }
    }
  }

  /** The preprocessing loop of the optimal policy: for each position `i`,
      append `i` to the list of the page stored there. */
  method BuildNextUse(trace: seq<string>) returns (nextUse: map<string, seq<int>>)
    ensures nextUse.Keys == Distinct(trace)
    ensures forall p :: Lookup(nextUse, p) == Positions(trace, p)
  {
    nextUse := map[];
    for i := 0 to |trace|
      invariant nextUse.Keys == Distinct(trace[..i])
      invariant forall p :: Lookup(nextUse, p) == PositionsIn(trace, p, i)
    {
      var pageID := trace[i];
      AppendPosition(trace, nextUse, i);
      assert trace[..i + 1] == trace[..i] + [pageID];
      DistinctSnoc(trace[..i], pageID);
      nextUse := WithPosition(nextUse, pageID, i);
    }
    assert trace[..|trace|] == trace;
  }

  ghost predicate Ascending(a: seq<int>) {
    forall j, k :: 0 <= j < k < |a| ==> a[j] <= a[k]
  }

  /** Go's `sort.SearchInts(a, x)`: the smallest index whose element is
      at least `x` (|a| when there is none), found by halving `[i, j)`
      exactly as `sort.Search` does. */
  method SearchInts(a: seq<int>, x: int) returns (r: int)
    requires Ascending(a)
    ensures 0 <= r <= |a|
    ensures forall k :: 0 <= k < r ==> a[k] < x
    ensures forall k :: r <= k < |a| ==> a[k] >= x
  {
    var i, j := 0, |a|;
    while i < j
      invariant 0 <= i <= j <= |a|
      invariant forall k :: 0 <= k < i ==> a[k] < x
      invariant forall k :: j <= k < |a| ==> a[k] >= x
    {
      var h := (i + j) / 2;
      if !(a[h] >= x) {
        i := h + 1;
      } else {
        j := h;
      }
    }
    r := i;
  }

  /** Reading the position found by the binary search for `i + 1` in the
      list of `p` (or `|trace|` when the search runs off the end) gives
      the next use of `p` strictly after `i`. */
  lemma SearchFindsNextUse(trace: seq<string>, p: string, i: nat, idx: int)
    requires i < |trace|
    requires 0 <= idx <= |Positions(trace, p)|
    requires forall k :: 0 <= k < idx ==> Positions(trace, p)[k] < i + 1
    requires forall k :: idx <= k < |Positions(trace, p)| ==> Positions(trace, p)[k] >= i + 1
    ensures (if idx == |Positions(trace, p)| then |trace| else Positions(trace, p)[idx])
            == NextOccurrence(trace, p, i + 1)
  {
    var pos := Positions(trace, p);
    PositionsInSpec(trace, p, |trace|);
    var r := if idx == |pos| then |trace| else pos[idx];
    assert pos[..] == pos;
    if idx < |pos| {
      assert pos[idx] in pos;
    }
    NextOccurrenceSpec(trace, p, i + 1, r);
  }
}
