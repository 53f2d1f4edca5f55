/** Definitions shared by the loader and both replacement policies:
    the page size, an optional value, the per-page load counter and
    the set of pages a trace touches. */
module Paging {

  /** Bytes per page frame. */
  const PAGE_SIZE: int := 4096

  datatype Option<T> = None | Some(value: T)

  /** Per-page number of loads (Go: map[string]int). */
  type Counter = map<string, int>

  /** Go's `m[k]++`: a missing key counts from 0. */
  function Inc(m: Counter, k: string): (r: Counter)
    ensures r.Keys == m.Keys + {k}
    ensures k in m ==> r[k] == m[k] + 1
    ensures k !in m ==> r[k] == 1
    ensures forall j :: j in m && j != k ==> r[j] == m[j]
  {
    m[k := (if k in m then m[k] else 0) + 1]
  }

  /** Sum of all load counts of a counter. */
  ghost function Total(m: Counter): int
    decreases |m|
  {
    if m == map[] then 0
    else
      var k :| k in m;
      m[k] + Total(m - {k})
  }

  /** The sum does not depend on which key is taken out first. */
  lemma {:induction false} TotalRemove(m: Counter, k: string)
    requires k in m
    ensures Total(m) == m[k] + Total(m - {k})
    decreases |m|
  {
    var j :| j in m && Total(m) == m[j] + Total(m - {j});
    if j != k {
      TotalRemove(m - {j}, k);
      TotalRemove(m - {k}, j);
      assert m - {j} - {k} == m - {k} - {j};
    }
  }

  /** One more load adds exactly one to the total. */
  lemma TotalInc(m: Counter, k: string)
    ensures Total(Inc(m, k)) == Total(m) + 1
  {
    TotalRemove(Inc(m, k), k);
    if k in m {
      TotalRemove(m, k);
      assert Inc(m, k) - {k} == m - {k};
    } else {
      assert Inc(m, k) - {k} == m;
    }
  }

  /** The set of pages that occur in a trace. */
  function Distinct(s: seq<string>): set<string> {
    set q | q in s
  }

  lemma DistinctSnoc(s: seq<string>, x: string)
    ensures Distinct(s + [x]) == Distinct(s) + {x}
  {
    assert forall q :: q in s + [x] <==> q in s || q == x;
  }

  lemma {:induction false} SubsetCard(a: set<string>, b: set<string>)
    requires a <= b
    ensures |a| <= |b|
    decreases |b|
  {
    if a != {} {
      var x :| x in a;
      SubsetCard(a - {x}, b - {x});
    }
  }

  /** The set of pages among the first `n` accesses of a trace. */
  function Seen(trace: seq<string>, n: nat): set<string>
    requires n <= |trace|
  {
    if n == 0 then {} else Seen(trace, n - 1) + {trace[n - 1]}
  }

  lemma {:induction false} SeenIsDistinct(trace: seq<string>, n: nat)
    requires n <= |trace|
    ensures Seen(trace, n) == Distinct(trace[..n])
  {
    if n == 0 {
      assert trace[..0] == [];
    } else {
      SeenIsDistinct(trace, n - 1);
      assert trace[..n] == trace[..n - 1] + [trace[n - 1]];
      DistinctSnoc(trace[..n - 1], trace[n - 1]);
    }
  }

  lemma {:induction false} SeenGrows(trace: seq<string>, n: nat, k: nat)
    requires n <= k <= |trace|
    ensures Seen(trace, n) <= Seen(trace, k)
    decreases k
  {
    if k > n {
      SeenGrows(trace, n, k - 1);
    }
  }

  lemma SeenAll(trace: seq<string>)
    ensures Seen(trace, |trace|) == Distinct(trace)
  {
    SeenIsDistinct(trace, |trace|);
    assert trace[..|trace|] == trace;
  }

  /** The pages among the first `m` accesses are among the first `n`. */
  lemma SeenCard(trace: seq<string>, m: nat, n: nat)
    requires m <= n <= |trace|
    ensures |Seen(trace, m)| <= |Seen(trace, n)|
  {
    SeenGrows(trace, m, n);
    SubsetCard(Seen(trace, m), Seen(trace, n));
  }

  /** A page not seen before access number `m` is one more distinct page,
      so fewer pages were seen before it than in the first `n >= m`. */
  lemma NewPageRoom(trace: seq<string>, m: nat, n: nat)
    requires 0 < m <= n <= |trace| && trace[m - 1] !in Seen(trace, m - 1)
    ensures |Seen(trace, m - 1)| < |Seen(trace, n)|
  {
    SeenCard(trace, m, n);
    assert |Seen(trace, m)| == |Seen(trace, m - 1)| + 1;
  }

  /** The bookkeeping both policies keep after replaying `n` accesses
      that touched the pages `seen`: the fault count is the sum of the load
      counts, exactly the pages seen have been loaded, every resident page
      has been seen, and there was at most one fault per access. */
  ghost predicate Accounted(n: int, seen: set<string>, resident: set<string>, faults: int, loads: Counter) {
    && faults == Total(loads)
    && loads.Keys == seen
    && resident <= seen
    && 0 <= faults <= n
  }

  /** Access number `m` to page `p`: a hit (the page is resident) changes
      no counter; a fault adds one load of that page and may change the
      resident set only by taking the page in. */
  lemma AccountStep(m: int, seen: set<string>, resident: set<string>, faults: int, loads: Counter,
                    p: string, resident': set<string>)
    requires Accounted(m - 1, seen, resident, faults, loads)
    ensures p in resident && resident' == resident ==> Accounted(m, seen + {p}, resident', faults, loads)
    ensures p !in resident && resident' <= resident + {p} ==>
              Accounted(m, seen + {p}, resident', faults + 1, Inc(loads, p))
  {
    TotalInc(loads, p);
  }

  /** How many of the first `n` accesses of a trace differ from the access
      just before them (the first access always counts). */
  function Changes(trace: seq<string>, n: nat): (r: nat)
    requires n <= |trace|
    ensures r <= n
  {
    if n == 0 then 0
    else Changes(trace, n - 1) + (if n == 1 || trace[n - 1] != trace[n - 2] then 1 else 0)
  }

  /** When no access repeats the one before it, every access is a change. */
  lemma {:induction false} ChangesNoRepeat(trace: seq<string>, n: nat)
    requires n <= |trace|
    requires forall i :: 0 < i < |trace| ==> trace[i] != trace[i - 1]
    ensures Changes(trace, n) == n
  {
    if n > 0 {
      ChangesNoRepeat(trace, n - 1);
    }
  }
}
