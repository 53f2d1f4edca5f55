/** Worked examples. The main one replays the ten accesses
    IA IB IC IA IB ID IA IB IC ID with three frames, one access at a time:
    the optimal policy faults 5 times and the clock policy 8 times. */
module Fixtures {
  import opened Paging
  import opened Optimal
  import opened Clock

  function Example1Trace(): seq<string> {
    ["IA", "IB", "IC", "IA", "IB", "ID", "IA", "IB", "IC", "ID"]
  }

  /** A resident frame whose reference bit the sweep has cleared. */
  function Unset(pageID: string): Option<PageFrame> {
    Some(PageFrame(pageID, false, 1))
  }

  /** The whole run under each policy. */
  lemma Example1(t: seq<string>)
    requires t == Example1Trace()
    ensures OptRun(t, 3).pageFaults == 5 && OptRun(t, 3).pageLoadCount == map["IA" := 1, "IB" := 1, "IC" := 2, "ID" := 1]
    ensures ClockRun(t, 3).pageFaults == 8 && ClockRun(t, 3).pageLoadCount == map["IA" := 2, "IB" := 2, "IC" := 2, "ID" := 2]
  {
    OptPrefix10(t);
    ClockPrefix10(t);
  }

  /** Four distinct pages and four frames: each page faults once, under
      either policy. */
  lemma Example3(t: seq<string>)
    requires t == ["IA", "IB", "IC", "ID"]
    ensures OptRun(t, 4).pageFaults == 4 && ClockRun(t, 4).pageFaults == 4
  {
    assert Distinct(t) == {"IA", "IB", "IC", "ID"};
    OptEnoughFrames(t, 4);
    ClockEnoughFrames(t, 4);
  }

  /** One frame and two pages taking turns: every access faults, under
      either policy. */
  lemma Example4(t: seq<string>)
    requires t == ["IA", "IB", "IA", "IB", "IA", "IB"]
    ensures OptRun(t, 1).pageFaults == 6 && ClockRun(t, 1).pageFaults == 6
  {
    ChangesNoRepeat(t, 6);
    OptOneFrame(t, 6);
    ClockOneFrame(t, 6);
  }

  /** One frame and one page: only the first access faults, under either
      policy. */
  lemma Example5(t: seq<string>)
    requires t == ["IA", "IA", "IA", "IA"]
    ensures OptRun(t, 1).pageFaults == 1 && OptRun(t, 1).pageLoadCount == map["IA" := 1]
    ensures ClockRun(t, 1).pageFaults == 1 && ClockRun(t, 1).pageLoadCount == map["IA" := 1]
  {
    assert Distinct(t) == {"IA"};
    OptEnoughFrames(t, 1);
    OptRunAccounted(t, 1);
    ClockEnoughFrames(t, 1);
    ClockRunAccounted(t, 1);
  }

  // The optimal policy.

  lemma OptPrefixStep(trace: seq<string>, n: nat, st: OptState)
    requires 1 <= n <= |trace| && OptPrefix(trace, 3, n - 1) == st
    ensures OptPrefix(trace, 3, n) == OptStep(trace, 3, st, n - 1)
  {
  }

  /** At the sixth access, ID, the next uses of IA, IB, IC are 6, 7, 8:
      IC goes. */
  lemma OptVictim6(t: seq<string>)
    requires t == Example1Trace()
    ensures Victim(t, ["IA", "IB", "IC"], 5) == 2
  {
    assert NextUseAfter(t, "IA", 5) == 6;
    assert NextUseAfter(t, "IB", 5) == 7;
    assert NextUseAfter(t, "IC", 5) == 8;
  }

  /** At the ninth access, IC, neither IA nor IB is used again: the lower,
      IA, goes. */
  lemma OptVictim9(t: seq<string>)
    requires t == Example1Trace()
    ensures Victim(t, ["IA", "IB", "ID"], 8) == 0
  {
    assert NextUseAfter(t, "IA", 8) == 10;
    assert NextUseAfter(t, "IB", 8) == 10;
    assert NextUseAfter(t, "ID", 8) == 9;
    assert FarthestIn(t, ["IA", "IB", "ID"], 8, 2) == 0;
  }

  lemma OptStep1(t: seq<string>)
    requires t == Example1Trace()
    ensures OptStep(t, 3, OptState([], map[], 0, map[]), 0)
         == OptState(["IA"], map["IA" := 0], 1,
                     map["IA" := 1])
  {
  }

  lemma OptStep2(t: seq<string>)
    requires t == Example1Trace()
    ensures OptStep(t, 3, OptState(["IA"], map["IA" := 0], 1,
                    map["IA" := 1]), 1)
         == OptState(["IA", "IB"], map["IA" := 0, "IB" := 1], 2,
                     map["IA" := 1, "IB" := 1])
  {
  }

  lemma OptStep3(t: seq<string>)
    requires t == Example1Trace()
    ensures OptStep(t, 3, OptState(["IA", "IB"], map["IA" := 0, "IB" := 1], 2,
                    map["IA" := 1, "IB" := 1]), 2)
         == OptState(["IA", "IB", "IC"], map["IA" := 0, "IB" := 1, "IC" := 2], 3,
                     map["IA" := 1, "IB" := 1, "IC" := 1])
  {
  }

  lemma OptStep4(t: seq<string>)
    requires t == Example1Trace()
    ensures OptStep(t, 3, OptState(["IA", "IB", "IC"], map["IA" := 0, "IB" := 1, "IC" := 2], 3,
                    map["IA" := 1, "IB" := 1, "IC" := 1]), 3)
         == OptState(["IA", "IB", "IC"], map["IA" := 0, "IB" := 1, "IC" := 2], 3,
                     map["IA" := 1, "IB" := 1, "IC" := 1])
  {
  }

  lemma OptStep5(t: seq<string>)
    requires t == Example1Trace()
    ensures OptStep(t, 3, OptState(["IA", "IB", "IC"], map["IA" := 0, "IB" := 1, "IC" := 2], 3,
                    map["IA" := 1, "IB" := 1, "IC" := 1]), 4)
         == OptState(["IA", "IB", "IC"], map["IA" := 0, "IB" := 1, "IC" := 2], 3,
                     map["IA" := 1, "IB" := 1, "IC" := 1])
  {
  }

  lemma OptStep6(t: seq<string>)
    requires t == Example1Trace()
    ensures OptStep(t, 3, OptState(["IA", "IB", "IC"], map["IA" := 0, "IB" := 1, "IC" := 2], 3,
                    map["IA" := 1, "IB" := 1, "IC" := 1]), 5)
         == OptState(["IA", "IB", "ID"], map["IA" := 0, "IB" := 1, "ID" := 2], 4,
                     map["IA" := 1, "IB" := 1, "IC" := 1, "ID" := 1])
  {
    OptVictim6(t);
  }

  lemma OptStep7(t: seq<string>)
    requires t == Example1Trace()
    ensures OptStep(t, 3, OptState(["IA", "IB", "ID"], map["IA" := 0, "IB" := 1, "ID" := 2], 4,
                    map["IA" := 1, "IB" := 1, "IC" := 1, "ID" := 1]), 6)
         == OptState(["IA", "IB", "ID"], map["IA" := 0, "IB" := 1, "ID" := 2], 4,
                     map["IA" := 1, "IB" := 1, "IC" := 1, "ID" := 1])
  {
  }

  lemma OptStep8(t: seq<string>)
    requires t == Example1Trace()
    ensures OptStep(t, 3, OptState(["IA", "IB", "ID"], map["IA" := 0, "IB" := 1, "ID" := 2], 4,
                    map["IA" := 1, "IB" := 1, "IC" := 1, "ID" := 1]), 7)
         == OptState(["IA", "IB", "ID"], map["IA" := 0, "IB" := 1, "ID" := 2], 4,
                     map["IA" := 1, "IB" := 1, "IC" := 1, "ID" := 1])
  {
  }

  lemma OptStep9(t: seq<string>)
    requires t == Example1Trace()
    ensures OptStep(t, 3, OptState(["IA", "IB", "ID"], map["IA" := 0, "IB" := 1, "ID" := 2], 4,
                    map["IA" := 1, "IB" := 1, "IC" := 1, "ID" := 1]), 8)
         == OptState(["IC", "IB", "ID"], map["IC" := 0, "IB" := 1, "ID" := 2], 5,
                     map["IA" := 1, "IB" := 1, "IC" := 2, "ID" := 1])
  {
    OptVictim9(t);
  }

  lemma OptStep10(t: seq<string>)
    requires t == Example1Trace()
    ensures OptStep(t, 3, OptState(["IC", "IB", "ID"], map["IC" := 0, "IB" := 1, "ID" := 2], 5,
                    map["IA" := 1, "IB" := 1, "IC" := 2, "ID" := 1]), 9)
         == OptState(["IC", "IB", "ID"], map["IC" := 0, "IB" := 1, "ID" := 2], 5,
                     map["IA" := 1, "IB" := 1, "IC" := 2, "ID" := 1])
  {
  }

  lemma OptPrefix1(t: seq<string>)
    requires t == Example1Trace()
    ensures OptPrefix(t, 3, 1) == OptState(["IA"], map["IA" := 0], 1,
                                    map["IA" := 1])
  {
    OptPrefixStep(t, 1, OptState([], map[], 0, map[]));
    OptStep1(t);
  }

  lemma OptPrefix2(t: seq<string>)
    requires t == Example1Trace()
    ensures OptPrefix(t, 3, 2) == OptState(["IA", "IB"], map["IA" := 0, "IB" := 1], 2,
                                    map["IA" := 1, "IB" := 1])
  {
    OptPrefix1(t);
    OptPrefixStep(t, 2, OptState(["IA"], map["IA" := 0], 1,
                           map["IA" := 1]));
    OptStep2(t);
  }

  lemma OptPrefix3(t: seq<string>)
    requires t == Example1Trace()
    ensures OptPrefix(t, 3, 3) == OptState(["IA", "IB", "IC"], map["IA" := 0, "IB" := 1, "IC" := 2], 3,
                                    map["IA" := 1, "IB" := 1, "IC" := 1])
  {
    OptPrefix2(t);
    OptPrefixStep(t, 3, OptState(["IA", "IB"], map["IA" := 0, "IB" := 1], 2,
                           map["IA" := 1, "IB" := 1]));
    OptStep3(t);
  }

  lemma OptPrefix4(t: seq<string>)
    requires t == Example1Trace()
    ensures OptPrefix(t, 3, 4) == OptState(["IA", "IB", "IC"], map["IA" := 0, "IB" := 1, "IC" := 2], 3,
                                    map["IA" := 1, "IB" := 1, "IC" := 1])
  {
    OptPrefix3(t);
    OptPrefixStep(t, 4, OptState(["IA", "IB", "IC"], map["IA" := 0, "IB" := 1, "IC" := 2], 3,
                           map["IA" := 1, "IB" := 1, "IC" := 1]));
    OptStep4(t);
  }

  lemma OptPrefix5(t: seq<string>)
    requires t == Example1Trace()
    ensures OptPrefix(t, 3, 5) == OptState(["IA", "IB", "IC"], map["IA" := 0, "IB" := 1, "IC" := 2], 3,
                                    map["IA" := 1, "IB" := 1, "IC" := 1])
  {
    OptPrefix4(t);
    OptPrefixStep(t, 5, OptState(["IA", "IB", "IC"], map["IA" := 0, "IB" := 1, "IC" := 2], 3,
                           map["IA" := 1, "IB" := 1, "IC" := 1]));
    OptStep5(t);
  }

  lemma OptPrefix6(t: seq<string>)
    requires t == Example1Trace()
    ensures OptPrefix(t, 3, 6) == OptState(["IA", "IB", "ID"], map["IA" := 0, "IB" := 1, "ID" := 2], 4,
                                    map["IA" := 1, "IB" := 1, "IC" := 1, "ID" := 1])
  {
    OptPrefix5(t);
    OptPrefixStep(t, 6, OptState(["IA", "IB", "IC"], map["IA" := 0, "IB" := 1, "IC" := 2], 3,
                           map["IA" := 1, "IB" := 1, "IC" := 1]));
    OptStep6(t);
  }

  lemma OptPrefix7(t: seq<string>)
    requires t == Example1Trace()
    ensures OptPrefix(t, 3, 7) == OptState(["IA", "IB", "ID"], map["IA" := 0, "IB" := 1, "ID" := 2], 4,
                                    map["IA" := 1, "IB" := 1, "IC" := 1, "ID" := 1])
  {
    OptPrefix6(t);
    OptPrefixStep(t, 7, OptState(["IA", "IB", "ID"], map["IA" := 0, "IB" := 1, "ID" := 2], 4,
                           map["IA" := 1, "IB" := 1, "IC" := 1, "ID" := 1]));
    OptStep7(t);
  }

  lemma OptPrefix8(t: seq<string>)
    requires t == Example1Trace()
    ensures OptPrefix(t, 3, 8) == OptState(["IA", "IB", "ID"], map["IA" := 0, "IB" := 1, "ID" := 2], 4,
                                    map["IA" := 1, "IB" := 1, "IC" := 1, "ID" := 1])
  {
    OptPrefix7(t);
    OptPrefixStep(t, 8, OptState(["IA", "IB", "ID"], map["IA" := 0, "IB" := 1, "ID" := 2], 4,
                           map["IA" := 1, "IB" := 1, "IC" := 1, "ID" := 1]));
    OptStep8(t);
  }

  lemma OptPrefix9(t: seq<string>)
    requires t == Example1Trace()
    ensures OptPrefix(t, 3, 9) == OptState(["IC", "IB", "ID"], map["IC" := 0, "IB" := 1, "ID" := 2], 5,
                                    map["IA" := 1, "IB" := 1, "IC" := 2, "ID" := 1])
  {
    OptPrefix8(t);
    OptPrefixStep(t, 9, OptState(["IA", "IB", "ID"], map["IA" := 0, "IB" := 1, "ID" := 2], 4,
                           map["IA" := 1, "IB" := 1, "IC" := 1, "ID" := 1]));
    OptStep9(t);
  }

  lemma OptPrefix10(t: seq<string>)
    requires t == Example1Trace()
    ensures OptPrefix(t, 3, 10) == OptState(["IC", "IB", "ID"], map["IC" := 0, "IB" := 1, "ID" := 2], 5,
                                    map["IA" := 1, "IB" := 1, "IC" := 2, "ID" := 1])
  {
    OptPrefix9(t);
    OptPrefixStep(t, 10, OptState(["IC", "IB", "ID"], map["IC" := 0, "IB" := 1, "ID" := 2], 5,
                           map["IA" := 1, "IB" := 1, "IC" := 2, "ID" := 1]));
    OptStep10(t);
  }

  // The clock policy.

  lemma ClockPrefixStep(trace: seq<string>, n: nat, st: ClockState, pageID: string)
    requires 1 <= n <= |trace| && ClockPrefix(trace, 3, n - 1) == st && trace[n - 1] == pageID
    ensures WellFormed(st, 3) && ClockPrefix(trace, 3, n) == ClockStep(st, 3, pageID)
  {
    ClockPrefixWellFormed(trace, 3, n - 1);
  }

  /** All three bits set: one full turn clears them and slot 0 goes. */
  lemma SweepFullTurn(a: string, b: string, c: string)
    ensures Sweep([Installed(a), Installed(b), Installed(c)], 0) == SweepResult([Unset(a), Unset(b), Unset(c)], 0, 3)
  {
    assert Sweep([Unset(a), Unset(b), Unset(c)], 0) == SweepResult([Unset(a), Unset(b), Unset(c)], 0, 0);
    assert [Unset(a), Unset(b), Installed(c)][2 := Unset(c)] == [Unset(a), Unset(b), Unset(c)];
    assert Sweep([Unset(a), Unset(b), Installed(c)], 2) == SweepResult([Unset(a), Unset(b), Unset(c)], 0, 1);
    assert [Unset(a), Installed(b), Installed(c)][1 := Unset(b)] == [Unset(a), Unset(b), Installed(c)];
    assert Sweep([Unset(a), Installed(b), Installed(c)], 1) == SweepResult([Unset(a), Unset(b), Unset(c)], 0, 2);
    assert [Installed(a), Installed(b), Installed(c)][0 := Unset(a)] == [Unset(a), Installed(b), Installed(c)];
  }

  lemma ClockStep1()
    ensures ClockStep(ClockState([None, None, None], map[], 0, 0, map[]), 3, "IA")
         == ClockState([Installed("IA"), None, None], map["IA" := 0], 0, 1,
                       map["IA" := 1])
  {
  }

  lemma ClockStep2()
    ensures ClockStep(ClockState([Installed("IA"), None, None], map["IA" := 0], 0, 1,
                                  map["IA" := 1]), 3, "IB")
         == ClockState([Installed("IA"), Installed("IB"), None], map["IA" := 0, "IB" := 1], 0, 2,
                       map["IA" := 1, "IB" := 1])
  {
  }

  lemma ClockStep3()
    ensures ClockStep(ClockState([Installed("IA"), Installed("IB"), None], map["IA" := 0, "IB" := 1], 0, 2,
                                  map["IA" := 1, "IB" := 1]), 3, "IC")
         == ClockState([Installed("IA"), Installed("IB"), Installed("IC")], map["IA" := 0, "IB" := 1, "IC" := 2], 0, 3,
                       map["IA" := 1, "IB" := 1, "IC" := 1])
  {
  }

  lemma ClockStep4()
    ensures ClockStep(ClockState([Installed("IA"), Installed("IB"), Installed("IC")], map["IA" := 0, "IB" := 1, "IC" := 2], 0, 3,
                                  map["IA" := 1, "IB" := 1, "IC" := 1]), 3, "IA")
         == ClockState([Installed("IA"), Installed("IB"), Installed("IC")], map["IA" := 0, "IB" := 1, "IC" := 2], 0, 3,
                       map["IA" := 1, "IB" := 1, "IC" := 1])
  {
  }

  lemma ClockStep5()
    ensures ClockStep(ClockState([Installed("IA"), Installed("IB"), Installed("IC")], map["IA" := 0, "IB" := 1, "IC" := 2], 0, 3,
                                  map["IA" := 1, "IB" := 1, "IC" := 1]), 3, "IB")
         == ClockState([Installed("IA"), Installed("IB"), Installed("IC")], map["IA" := 0, "IB" := 1, "IC" := 2], 0, 3,
                       map["IA" := 1, "IB" := 1, "IC" := 1])
  {
  }

  lemma ClockStep6()
    ensures ClockStep(ClockState([Installed("IA"), Installed("IB"), Installed("IC")], map["IA" := 0, "IB" := 1, "IC" := 2], 0, 3,
                                  map["IA" := 1, "IB" := 1, "IC" := 1]), 3, "ID")
         == ClockState([Installed("ID"), Unset("IB"), Unset("IC")], map["ID" := 0, "IB" := 1, "IC" := 2], 1, 4,
                       map["IA" := 1, "IB" := 1, "IC" := 1, "ID" := 1])
  {
    SweepFullTurn("IA", "IB", "IC");
  }

  lemma ClockStep7()
    ensures ClockStep(ClockState([Installed("ID"), Unset("IB"), Unset("IC")], map["ID" := 0, "IB" := 1, "IC" := 2], 1, 4,
                                  map["IA" := 1, "IB" := 1, "IC" := 1, "ID" := 1]), 3, "IA")
         == ClockState([Installed("ID"), Installed("IA"), Unset("IC")], map["ID" := 0, "IA" := 1, "IC" := 2], 2, 5,
                       map["IA" := 2, "IB" := 1, "IC" := 1, "ID" := 1])
  {
  }

  lemma ClockStep8()
    ensures ClockStep(ClockState([Installed("ID"), Installed("IA"), Unset("IC")], map["ID" := 0, "IA" := 1, "IC" := 2], 2, 5,
                                  map["IA" := 2, "IB" := 1, "IC" := 1, "ID" := 1]), 3, "IB")
         == ClockState([Installed("ID"), Installed("IA"), Installed("IB")], map["ID" := 0, "IA" := 1, "IB" := 2], 0, 6,
                       map["IA" := 2, "IB" := 2, "IC" := 1, "ID" := 1])
  {
  }

  lemma ClockStep9()
    ensures ClockStep(ClockState([Installed("ID"), Installed("IA"), Installed("IB")], map["ID" := 0, "IA" := 1, "IB" := 2], 0, 6,
                                  map["IA" := 2, "IB" := 2, "IC" := 1, "ID" := 1]), 3, "IC")
         == ClockState([Installed("IC"), Unset("IA"), Unset("IB")], map["IC" := 0, "IA" := 1, "IB" := 2], 1, 7,
                       map["IA" := 2, "IB" := 2, "IC" := 2, "ID" := 1])
  {
    SweepFullTurn("ID", "IA", "IB");
  }

  lemma ClockStep10()
    ensures ClockStep(ClockState([Installed("IC"), Unset("IA"), Unset("IB")], map["IC" := 0, "IA" := 1, "IB" := 2], 1, 7,
                                  map["IA" := 2, "IB" := 2, "IC" := 2, "ID" := 1]), 3, "ID")
         == ClockState([Installed("IC"), Installed("ID"), Unset("IB")], map["IC" := 0, "ID" := 1, "IB" := 2], 2, 8,
                       map["IA" := 2, "IB" := 2, "IC" := 2, "ID" := 2])
  {
  }

  lemma ClockPrefix1(t: seq<string>)
    requires t == Example1Trace()
    ensures ClockPrefix(t, 3, 1) == ClockState([Installed("IA"), None, None], map["IA" := 0], 0, 1,
                                        map["IA" := 1])
  {
    assert ClockPrefix(t, 3, 0) == ClockState([None, None, None], map[], 0, 0, map[]);
    ClockPrefixStep(t, 1, ClockState([None, None, None], map[], 0, 0, map[]), "IA");
    ClockStep1();
  }

  lemma ClockPrefix2(t: seq<string>)
    requires t == Example1Trace()
    ensures ClockPrefix(t, 3, 2) == ClockState([Installed("IA"), Installed("IB"), None], map["IA" := 0, "IB" := 1], 0, 2,
                                        map["IA" := 1, "IB" := 1])
  {
    ClockPrefix1(t);
    ClockPrefixStep(t, 2, ClockState([Installed("IA"), None, None], map["IA" := 0], 0, 1,
                             map["IA" := 1]), "IB");
    ClockStep2();
  }

  lemma ClockPrefix3(t: seq<string>)
    requires t == Example1Trace()
    ensures ClockPrefix(t, 3, 3) == ClockState([Installed("IA"), Installed("IB"), Installed("IC")], map["IA" := 0, "IB" := 1, "IC" := 2], 0, 3,
                                        map["IA" := 1, "IB" := 1, "IC" := 1])
  {
    ClockPrefix2(t);
    ClockPrefixStep(t, 3, ClockState([Installed("IA"), Installed("IB"), None], map["IA" := 0, "IB" := 1], 0, 2,
                             map["IA" := 1, "IB" := 1]), "IC");
    ClockStep3();
  }

  lemma ClockPrefix4(t: seq<string>)
    requires t == Example1Trace()
    ensures ClockPrefix(t, 3, 4) == ClockState([Installed("IA"), Installed("IB"), Installed("IC")], map["IA" := 0, "IB" := 1, "IC" := 2], 0, 3,
                                        map["IA" := 1, "IB" := 1, "IC" := 1])
  {
    ClockPrefix3(t);
    ClockPrefixStep(t, 4, ClockState([Installed("IA"), Installed("IB"), Installed("IC")], map["IA" := 0, "IB" := 1, "IC" := 2], 0, 3,
                             map["IA" := 1, "IB" := 1, "IC" := 1]), "IA");
    ClockStep4();
  }

  lemma ClockPrefix5(t: seq<string>)
    requires t == Example1Trace()
    ensures ClockPrefix(t, 3, 5) == ClockState([Installed("IA"), Installed("IB"), Installed("IC")], map["IA" := 0, "IB" := 1, "IC" := 2], 0, 3,
                                        map["IA" := 1, "IB" := 1, "IC" := 1])
  {
    ClockPrefix4(t);
    ClockPrefixStep(t, 5, ClockState([Installed("IA"), Installed("IB"), Installed("IC")], map["IA" := 0, "IB" := 1, "IC" := 2], 0, 3,
                             map["IA" := 1, "IB" := 1, "IC" := 1]), "IB");
    ClockStep5();
  }

  lemma ClockPrefix6(t: seq<string>)
    requires t == Example1Trace()
    ensures ClockPrefix(t, 3, 6) == ClockState([Installed("ID"), Unset("IB"), Unset("IC")], map["ID" := 0, "IB" := 1, "IC" := 2], 1, 4,
                                        map["IA" := 1, "IB" := 1, "IC" := 1, "ID" := 1])
  {
    ClockPrefix5(t);
    ClockPrefixStep(t, 6, ClockState([Installed("IA"), Installed("IB"), Installed("IC")], map["IA" := 0, "IB" := 1, "IC" := 2], 0, 3,
                             map["IA" := 1, "IB" := 1, "IC" := 1]), "ID");
    ClockStep6();
  }

  lemma ClockPrefix7(t: seq<string>)
    requires t == Example1Trace()
    ensures ClockPrefix(t, 3, 7) == ClockState([Installed("ID"), Installed("IA"), Unset("IC")], map["ID" := 0, "IA" := 1, "IC" := 2], 2, 5,
                                        map["IA" := 2, "IB" := 1, "IC" := 1, "ID" := 1])
  {
    ClockPrefix6(t);
    ClockPrefixStep(t, 7, ClockState([Installed("ID"), Unset("IB"), Unset("IC")], map["ID" := 0, "IB" := 1, "IC" := 2], 1, 4,
                             map["IA" := 1, "IB" := 1, "IC" := 1, "ID" := 1]), "IA");
    ClockStep7();
  }

  lemma ClockPrefix8(t: seq<string>)
    requires t == Example1Trace()
    ensures ClockPrefix(t, 3, 8) == ClockState([Installed("ID"), Installed("IA"), Installed("IB")], map["ID" := 0, "IA" := 1, "IB" := 2], 0, 6,
                                        map["IA" := 2, "IB" := 2, "IC" := 1, "ID" := 1])
  {
    ClockPrefix7(t);
    ClockPrefixStep(t, 8, ClockState([Installed("ID"), Installed("IA"), Unset("IC")], map["ID" := 0, "IA" := 1, "IC" := 2], 2, 5,
                             map["IA" := 2, "IB" := 1, "IC" := 1, "ID" := 1]), "IB");
    ClockStep8();
  }

  lemma ClockPrefix9(t: seq<string>)
    requires t == Example1Trace()
    ensures ClockPrefix(t, 3, 9) == ClockState([Installed("IC"), Unset("IA"), Unset("IB")], map["IC" := 0, "IA" := 1, "IB" := 2], 1, 7,
                                        map["IA" := 2, "IB" := 2, "IC" := 2, "ID" := 1])
  {
    ClockPrefix8(t);
    ClockPrefixStep(t, 9, ClockState([Installed("ID"), Installed("IA"), Installed("IB")], map["ID" := 0, "IA" := 1, "IB" := 2], 0, 6,
                             map["IA" := 2, "IB" := 2, "IC" := 1, "ID" := 1]), "IC");
    ClockStep9();
  }

  lemma ClockPrefix10(t: seq<string>)
    requires t == Example1Trace()
    ensures ClockPrefix(t, 3, 10) == ClockState([Installed("IC"), Installed("ID"), Unset("IB")], map["IC" := 0, "ID" := 1, "IB" := 2], 2, 8,
                                        map["IA" := 2, "IB" := 2, "IC" := 2, "ID" := 2])
  {
    ClockPrefix9(t);
    ClockPrefixStep(t, 10, ClockState([Installed("IC"), Unset("IA"), Unset("IB")], map["IC" := 0, "IA" := 1, "IB" := 2], 1, 7,
                             map["IA" := 2, "IB" := 2, "IC" := 2, "ID" := 1]), "ID");
    ClockStep10();
  }
}
