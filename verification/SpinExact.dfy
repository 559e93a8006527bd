/**
  Exactly when a loop waits for others: the condition of SpinMachine is necessary too whenever
  the inner branches that have a say in leaving are ways out.  For what the analysis calls a
  wait it comes down to two things that can be read off the body.
 */
module SpinExact {
  import opened Wrappers
  import opened MipsBody
  import opened SpinLoops
  import opened SpinMachine

  // ----- The other direction -----

  /** The inner branches that have a say in leaving are ways out, and no branch is likely. */
  predicate OnlyExitsMatter(c: Code)
    requires c.b < |c.span|
  {
    forall i :: 0 <= i < c.b && Inner(c, i) ==> c.span[i].kind.Branch? && (Relevant(c, i) ==> Leaves(c, i))
  }

  function Positive(w: int): nat { if w > 0 then w else 0 }

  function Sum(args: seq<int>): int {
    if args == [] then 0 else Sum(args[..|args| - 1]) + args[|args| - 1]
  }

  /** Everything computed grows with everything it is computed from; every store and call lets time pass. */
  function Growth(): Calc<int> {
    Calc((p: nat, args: seq<int>, w: int) => 1 + Sum(args) + Positive(w), (p: nat, args: seq<int>, w: int) => w + 1)
  }

  /** The pass that falls through every inner branch. */
  function Straight(c: Code, s: State<int>, p: nat): State<int>
    requires p <= |c.span|
  {
    if p == 0 then s else StepOf(c, Growth(), Straight(c, s, p - 1), p - 1)
  }

  function StraightArgs(c: Code, s: State<int>, p: nat): seq<int>
    requires p < |c.span|
  {
    ReadAll(Straight(c, s, p).regs, c.span[p].Uses())
  }

  ghost predicate NoLess(st: Regs, st2: Regs) {
    forall r :: 0 <= Read(st, r) <= Read(st2, r)
  }

  lemma {:induction false} SumGrows(a: seq<int>, b: seq<int>)
    requires |a| == |b| && forall i :: 0 <= i < |a| ==> 0 <= a[i] <= b[i]
    ensures 0 <= Sum(a) <= Sum(b)
    ensures (exists i :: 0 <= i < |a| && a[i] < b[i]) ==> Sum(a) < Sum(b)
  {
    if a != [] {
      var n := |a| - 1;
      SumGrows(a[..n], b[..n]);
      if i :| 0 <= i < |a| && a[i] < b[i] && i < n {
        assert a[..n][i] < b[..n][i];
      }
    }
  }

  /** One step of the growing machine, seen from one register. */
  lemma GrowthReads(c: Code, s: State<int>, p: nat, r: Reg)
    requires p < |c.span|
    ensures var s2, i := StepOf(c, Growth(), s, p), c.span[p];
            && Read(s2.regs, r) == (if r == ZERO then 0
                                    else if i.Def() == Some(r) then 1 + Sum(ReadAll(s.regs, i.Uses())) + Positive(s.world)
                                    else Read(s.regs, r))
            && s2.world == s.world + if MayChangeWorld(i, c.quiet) then 1 else 0
  {
  }

  /** One step of the growing machine, from two states of which neither is behind. */
  lemma GrowthStep(c: Code, s: State<int>, t: State<int>, p: nat, r: Reg)
    requires p < |c.span| && NoLess(s.regs, t.regs) && s.world <= t.world
    ensures var s2, t2, i := StepOf(c, Growth(), s, p), StepOf(c, Growth(), t, p), c.span[p];
            && 0 <= Read(s2.regs, r) <= Read(t2.regs, r) && s2.world <= t2.world
            && (i.Def() == Some(r) && r != ZERO ==> Read(s2.regs, r) > 0)
            && (i.Def() == Some(r) && r != ZERO && 0 <= s.world < t.world ==> Read(s2.regs, r) < Read(t2.regs, r))
            && (i.Def() == Some(r) && r != ZERO && (exists u :: u in i.Uses() && Read(s.regs, u) < Read(t.regs, u))
                ==> Read(s2.regs, r) < Read(t2.regs, r))
            && (i.Def() != Some(r) ==> Read(s2.regs, r) == Read(s.regs, r) && Read(t2.regs, r) == Read(t.regs, r))
  {
    var i := c.span[p];
    var a, b := ReadAll(s.regs, i.Uses()), ReadAll(t.regs, i.Uses());
    assert forall k :: 0 <= k < |a| ==> a[k] == Read(s.regs, i.Uses()[k]) && b[k] == Read(t.regs, i.Uses()[k]);
    SumGrows(a, b);
    GrowthReads(c, s, p, r);
    GrowthReads(c, t, p, r);
    hide StepOf, Read, ReadAll, Sum, MayChangeWorld, Growth;
    if u :| u in i.Uses() && Read(s.regs, u) < Read(t.regs, u) {
      var k :| 0 <= k < |i.Uses()| && i.Uses()[k] == u;
      assert a[k] < b[k];
    }
  }

  lemma {:induction false} StraightGrows(c: Code, s: State<int>, t: State<int>, p: nat)
    requires p <= |c.span| && NoLess(s.regs, t.regs) && s.world <= t.world
    ensures NoLess(Straight(c, s, p).regs, Straight(c, t, p).regs) && Straight(c, s, p).world <= Straight(c, t, p).world
  {
    hide StepOf, Read, Growth;
    if p > 0 {
      StraightGrows(c, s, t, p - 1);
      forall r
        ensures 0 <= Read(Straight(c, s, p).regs, r) <= Read(Straight(c, t, p).regs, r)
        ensures Straight(c, s, p).world <= Straight(c, t, p).world
      {
        GrowthStep(c, Straight(c, s, p - 1), Straight(c, t, p - 1), p - 1, r);
      }
      GrowthStep(c, Straight(c, s, p - 1), Straight(c, t, p - 1), p - 1, ZERO);
    }
  }

  /** In such a body, nothing that feeds a relevant test may be passed over. */
  lemma NothingFedIsSkipped(c: Code, x: nat, p: nat)
    requires FlowsForward(c) && OnlyExitsMatter(c) && x <= c.b && Relevant(c, x) && FeedsTest(c, x, p)
    ensures !MayBeSkipped(c, p)
  {
    hide Live;
    assert Matters(c, p);
    assert forall i :: 0 <= i < p && JumpsOver(c, i, p) ==> Relevant(c, i);
  }

  /** What is ahead in one of two passes, and live, puts something live ahead one instruction on. */
  lemma AheadOneOn(c: Code, s: State<int>, t: State<int>, x: nat, p: nat, r: Reg) returns (r2: Reg)
    requires FlowsForward(c) && OnlyExitsMatter(c) && p < x <= c.b && Relevant(c, x) && Live(c, x, p, r)
    requires NoLess(s.regs, t.regs) && s.world <= t.world && Read(s.regs, r) < Read(t.regs, r)
    ensures Live(c, x, p + 1, r2)
    ensures Read(StepOf(c, Growth(), s, p).regs, r2) < Read(StepOf(c, Growth(), t, p).regs, r2)
  {
    var i := c.span[p];
    if i.Def().Some? && r in i.Uses() && Live(c, x, p + 1, i.Def().value) {
      r2 := i.Def().value;
    } else {
      r2 := r;
      if i.Def() == Some(r) {
        NothingFedIsSkipped(c, x, p);
      }
    }
    hide StepOf, Growth, OnlyExitsMatter, FlowsForward, Relevant, MayBeSkipped, NoLess, Read, ReadAll;
    GrowthStep(c, s, t, p, r2);
  }

  lemma TestedAhead(c: Code, s: State<int>, t: State<int>, x: nat, r: Reg)
    requires x < |c.span| && r in c.span[x].Uses()
    requires Read(Straight(c, s, x).regs, r) < Read(Straight(c, t, x).regs, r)
    ensures StraightArgs(c, s, x) != StraightArgs(c, t, x)
  {
    hide Straight, Read;
    var uses := c.span[x].Uses();
    var k :| 0 <= k < |uses| && uses[k] == r;
    assert StraightArgs(c, s, x)[k] < StraightArgs(c, t, x)[k];
  }

  /** What is ahead in one of two passes, and live, puts a tested value ahead. */
  lemma {:induction false} AheadReachesTest(c: Code, s: State<int>, t: State<int>, x: nat, p: nat, r: Reg)
    requires FlowsForward(c) && OnlyExitsMatter(c) && p <= x <= c.b < |c.span| && Relevant(c, x) && Live(c, x, p, r)
    requires NoLess(s.regs, t.regs) && s.world <= t.world
    requires Read(Straight(c, s, p).regs, r) < Read(Straight(c, t, p).regs, r)
    ensures StraightArgs(c, s, x) != StraightArgs(c, t, x)
    decreases x - p
  {
    hide StepOf, Growth, OnlyExitsMatter, FlowsForward, Relevant, MayBeSkipped, NoLess, Read, StraightArgs, FeedsTest;
    if p == x {
      TestedAhead(c, s, t, x, r);
    } else {
      hide Live;
      StraightGrows(c, s, t, p);
      var r2 := AheadOneOn(c, Straight(c, s, p), Straight(c, t, p), x, p, r);
      AheadReachesTest(c, s, t, x, p + 1, r2);
    }
  }

  // ----- Exactly when a loop waits -----

  /** A register written in a pass that starts from nothing below zero ends above zero. */
  lemma {:induction false} WrittenIsPositive(c: Code, s: State<int>, p: nat, r: Reg)
    requires p <= |c.span| && WrittenBefore(c.span, p, r) && r != ZERO && NoLess(s.regs, s.regs)
    ensures Read(Straight(c, s, p).regs, r) > 0
  {
    hide StepOf, Growth, Read;
    StraightGrows(c, s, s, p - 1);
    GrowthStep(c, Straight(c, s, p - 1), Straight(c, s, p - 1), p - 1, r);
    if c.span[p - 1].Def() != Some(r) {
      assert WrittenBefore(c.span, p - 1, r);
      WrittenIsPositive(c, s, p - 1, r);
    }
  }

  function Ticks(c: Code, p: nat): nat
    requires p <= |c.span|
  {
    if p == 0 then 0 else Ticks(c, p - 1) + if MayChangeWorld(c.span[p - 1], c.quiet) then 1 else 0
  }

  lemma {:induction false} TicksPositive(c: Code, p: nat, i: nat)
    requires i < p <= |c.span| && MayChangeWorld(c.span[i], c.quiet)
    ensures Ticks(c, p) > 0
  {
    if i < p - 1 {
      TicksPositive(c, p - 1, i);
    }
  }

  lemma {:induction false} ClockRuns(c: Code, s: State<int>, p: nat)
    requires p <= |c.span|
    ensures Straight(c, s, p).world == s.world + Ticks(c, p)
  {
    if p > 0 {
      ClockRuns(c, s, p - 1);
    }
  }

  /** The first two tops of the growing machine. */
  function Start(): State<int> { State(map[], 0) }
  function Second(c: Code): State<int> { Straight(c, Start(), |c.span|) }

  lemma SecondIsAhead(c: Code)
    ensures NoLess(Start().regs, Second(c).regs) && Start().world <= Second(c).world
  {
    assert NoLess(Start().regs, Start().regs);
    StraightGrows(c, Start(), Start(), |c.span|);
    ClockRuns(c, Start(), |c.span|);
    hide Straight;
  }

  /** What is computed later, when time has passed, is more. */
  lemma LaterIsMore(c: Code, s: State<int>, t: State<int>, p: nat, d: Reg)
    requires p < |c.span| && c.span[p].Def() == Some(d) && d != ZERO
    requires NoLess(s.regs, t.regs) && 0 <= s.world < t.world
    ensures Read(Straight(c, s, p + 1).regs, d) < Read(Straight(c, t, p + 1).regs, d)
  {
    hide StepOf, Growth, Read, NoLess, Ticks;
    StraightGrows(c, s, t, p);
    ClockRuns(c, s, p);
    ClockRuns(c, t, p);
    GrowthStep(c, Straight(c, s, p), Straight(c, t, p), p, d);
  }

  /** What a relevant test carries over is ahead in the second iteration. */
  lemma CarriedMoves(c: Code, x: nat, r: Reg)
    requires FlowsForward(c) && OnlyExitsMatter(c) && x <= c.b < |c.span| && Relevant(c, x)
    requires Live(c, x, 0, r) && WrittenBefore(c.span, |c.span|, r)
    ensures StraightArgs(c, Start(), x) != StraightArgs(c, Second(c), x)
  {
    SecondIsAhead(c);
    assert NoLess(Start().regs, Start().regs) && r != ZERO;
    hide FlowsForward, OnlyExitsMatter, Relevant, StraightArgs, StepOf, Live, NoLess;
    WrittenIsPositive(c, Start(), |c.span|, r);
    AheadReachesTest(c, Start(), Second(c), x, 0, r);
  }

  lemma TimePasses(c: Code)
    requires !ChangesNothing(c)
    ensures 0 == Start().world < Second(c).world
  {
    var e: nat :| e < |c.span| && MayChangeWorld(c.span[e], c.quiet);
    TicksPositive(c, |c.span|, e);
    ClockRuns(c, Start(), |c.span|);
    hide Straight, Ticks;
  }

  /** What feeds a relevant test is ahead there too, when something can change the world. */
  lemma FedMoves(c: Code, x: nat, p: nat)
    requires FlowsForward(c) && OnlyExitsMatter(c) && x <= c.b < |c.span| && Relevant(c, x)
    requires FeedsTest(c, x, p) && !ChangesNothing(c)
    ensures StraightArgs(c, Start(), x) != StraightArgs(c, Second(c), x)
  {
    var d := c.span[p].Def().value;
    assert Live(c, x, p + 1, d) && d != ZERO;
    SecondIsAhead(c);
    TimePasses(c);
    hide FlowsForward, OnlyExitsMatter, Relevant, StraightArgs, Straight, Live, NoLess, ChangesNothing;
    LaterIsMore(c, Start(), Second(c), p, d);
    AheadReachesTest(c, Start(), Second(c), x, p + 1, d);
  }

  /** A relevant test that is not steady sees different values in the first two iterations. */
  lemma UnsteadyMoves(c: Code, x: nat)
    requires FlowsForward(c) && OnlyExitsMatter(c) && x <= c.b && Relevant(c, x) && !Steady(c, x)
    ensures StraightArgs(c, Start(), x) != StraightArgs(c, Second(c), x)
  {
    assert c.b < |c.span|;
    hide FlowsForward, OnlyExitsMatter, Relevant, StraightArgs, Live, Straight, ChangesNothing;
    if !CarriesNothing(c, x) {
      var r :| Live(c, x, 0, r) && WrittenBefore(c.span, |c.span|, r);
      CarriedMoves(c, x, r);
    } else {
      var p: nat :| p < x && FeedsTest(c, x, p);
      FedMoves(c, x, p);
    }
  }

  /** Every inner branch falls through, but the test at `x` lets the loop go for these values. */
  ghost function Trap(c: Code, x: nat, args: seq<int>): Meaning<int> {
    Meaning(Growth(), (i: nat, vs: seq<int>) => if i != x then i == c.b else if x == c.b then vs != args else vs == args)
  }

  /** An instruction at which the trap is not met. */
  lemma FallsOn(c: Code, x: nat, args: seq<int>, at: State<int>, p: nat)
    requires p < |c.span| && x <= c.b && (Inner(c, p) ==> c.span[p].kind.Branch?)
    requires p != x || x == c.b || ReadAll(at.regs, c.span[p].Uses()) != args
    ensures WalkStep(c, Trap(c, x, args), Flow(at, 0, 0, false), p) == Flow(StepOf(c, Growth(), at, p), 0, 0, false)
  {
    hide StepOf, ReadAll;
  }

  /** As long as the trap is not met, the pass falls through. */
  lemma {:induction false} FallsThrough(c: Code, x: nat, args: seq<int>, s: State<int>, p: nat)
    requires c.b < |c.span| && x <= c.b && OnlyExitsMatter(c) && p <= |c.span|
    requires p <= x || x == c.b || StraightArgs(c, s, x) != args
    ensures Walk(c, Trap(c, x, args), s, p) == Flow(Straight(c, s, p), 0, 0, false)
  {
    if p > 0 {
      assert Inner(c, p - 1) ==> c.span[p - 1].kind.Branch?;
      FallsThrough(c, x, args, s, p - 1);
      FallsOn(c, x, args, Straight(c, s, p - 1), p - 1);
    }
    hide OnlyExitsMatter, StepOf, WalkStep, ReadAll, Trap, Growth;
  }

  /** A pass that does not meet the trap goes round. */
  lemma MissesTrap(c: Code, x: nat, args: seq<int>, s: State<int>)
    requires c.b < |c.span| && x <= c.b && OnlyExitsMatter(c) && StraightArgs(c, s, x) != args
    ensures Walk(c, Trap(c, x, args), s, |c.span|).at == Straight(c, s, |c.span|) && GoesRound(c, Trap(c, x, args), s)
  {
    FallsThrough(c, x, args, s, |c.span|);
    FallsThrough(c, x, args, s, c.b);
    hide OnlyExitsMatter, Walk, Straight;
  }

  /** A pass that meets it does not. */
  lemma MeetsTrap(c: Code, x: nat, args: seq<int>, s: State<int>)
    requires c.b < |c.span| && x <= c.b && OnlyExitsMatter(c) && StraightArgs(c, s, x) == args
    requires x == c.b || Leaves(c, x)
    ensures !GoesRound(c, Trap(c, x, args), s)
  {
    FallsThrough(c, x, args, s, x);
    hide OnlyExitsMatter, Straight, StepOf;
    if x < c.b {
      assert Walk(c, Trap(c, x, args), s, x + 1).gone;
      if !Walk(c, Trap(c, x, args), s, |c.span|).gone {
        StillInside(c, Trap(c, x, args), s, x + 1, |c.span|);
      }
    }
  }

  /** A relevant test that is not steady can end the loop by itself. */
  lemma UnsteadyEnds(c: Code, x: nat)
    requires FlowsForward(c) && OnlyExitsMatter(c) && x <= c.b && Relevant(c, x) && !Steady(c, x)
    ensures !WaitsForOthers(c)
  {
    UnsteadyMoves(c, x);
    var s, t := Start(), Second(c);
    var args := StraightArgs(c, t, x);
    var m, o: Others<int> := Trap(c, x, args), (k: nat, w: int) => w;
    assert Inner(c, x) ==> Leaves(c, x);
    assert x == c.b || Leaves(c, x);
    MissesTrap(c, x, args, s);
    MeetsTrap(c, x, args, t);
    hide FlowsForward, OnlyExitsMatter, Relevant, Steady, Straight, StraightArgs, Walk, GoesRound, Trap;
    assert AtTop(c, m, o, s, 0) == s;
    assert AtTop(c, m, o, s, 1) == t;
    assert Round(c, m, o, s, 0) && !Round(c, m, o, s, 1);
    assert LeftAlone(c, m, o, s, 0, 1);
  }

  /**
    Exactly when a loop waits for others.  If its inner branches have a say in leaving only as
    ways out, then it goes round for as long as it is left alone, for all meanings of its
    instructions, if and only if every way out, its own branch included, is steady.
   */
  lemma WaitsForOthersIff(c: Code)
    requires FlowsForward(c) && OnlyExitsMatter(c)
    ensures WaitsForOthers(c) <==> HoldsStill(c)
  {
    if HoldsStill(c) {
      HoldingStillWaits(c);
    } else {
      hide WaitsForOthers;
      var x: nat :| x <= c.b && Relevant(c, x) && !Steady(c, x);
      UnsteadyEnds(c, x);
    }
  }

  // ----- Waits -----

  /** The analysis calls the loop a wait, and `b` is its branch. */
  ghost predicate IsWaitLoop(c: Code) {
    IsWait(c.span) && IsLastBranch(c.span, c.b)
  }

  /** The branch at `x` tests no register that the body writes. */
  predicate TestsNothingWritten(c: Code, x: nat)
    requires x < |c.span|
  {
    forall r :: r in Tested(c.span[x]) ==> !WrittenBefore(c.span, |c.span|, r)
  }

  predicate StraightLine(c: Code) {
    forall i :: 0 <= i < c.b ==> !Inner(c, i)
  }

  /** With nothing written among the tested registers, only they are live, and nothing feeds the test. */
  lemma {:induction false} OnlyTestedIsLive(c: Code, x: nat, p: nat, r: Reg)
    requires p <= x < |c.span| && TestsNothingWritten(c, x) && Live(c, x, p, r)
    ensures r in Tested(c.span[x])
    decreases x - p
  {
    if p < x {
      var i := c.span[p];
      if i.Def().Some? && r in i.Uses() && Live(c, x, p + 1, i.Def().value) {
        assert WrittenBefore(c.span, |c.span|, i.Def().value);
        OnlyTestedIsLive(c, x, p + 1, i.Def().value);
      } else {
        OnlyTestedIsLive(c, x, p + 1, r);
      }
    }
  }

  /** A branch that tests nothing written is steady whatever the body does. */
  lemma UnwrittenTestIsSteady(c: Code, x: nat)
    requires x < |c.span| && TestsNothingWritten(c, x)
    ensures Steady(c, x)
  {
    forall r | Live(c, x, 0, r) ensures !WrittenBefore(c.span, |c.span|, r) {
      OnlyTestedIsLive(c, x, 0, r);
    }
    forall p | 0 <= p < x ensures !FeedsTest(c, x, p) {
      if FeedsTest(c, x, p) {
        assert WrittenBefore(c.span, |c.span|, c.span[p].Def().value);
        OnlyTestedIsLive(c, x, p + 1, c.span[p].Def().value);
      }
    }
  }

  /** With nothing feeding the test, what it tests is live from the top. */
  lemma {:induction false} TestedIsLive(c: Code, x: nat, p: nat, r: Reg)
    requires p <= x < |c.span| && r in Tested(c.span[x]) && forall q :: p <= q < x ==> !FeedsTest(c, x, q)
    ensures Live(c, x, p, r)
    decreases x - p
  {
    if p < x {
      TestedIsLive(c, x, p + 1, r);
      assert !FeedsTest(c, x, p);
    }
  }

  /** Nothing that feeds the loop's own test can be passed over. */
  predicate TestIsNotSkipped(c: Code)
    requires c.b < |c.span|
  {
    forall p :: 0 <= p < c.b && FeedsTest(c, c.b, p) ==> !MayBeSkipped(c, p)
  }

  lemma StraightLineSkipsNothing(c: Code)
    requires c.b < |c.span| && StraightLine(c)
    ensures FlowsForward(c) && OnlyExitsMatter(c) && TestIsNotSkipped(c)
    ensures forall x :: 0 <= x <= c.b && Relevant(c, x) ==> x == c.b
  {
  }

  lemma SeedIsDependency(c: Code, r: Reg)
    requires c.b < |c.span| && r in Tested(c.span[c.b])
    ensures DependsOn(c.span, Tested(c.span[c.b]), r)
  {
    assert ChainTo(c.span, Tested(c.span[c.b]), r, [r]);
  }

  /** A live register is a dependency, and is read before anything from here on writes it. */
  lemma {:induction false} LiveIsRead(c: Code, p: nat, r: Reg) returns (q: nat)
    requires p <= c.b < |c.span| && Live(c, c.b, p, r) && TestIsNotSkipped(c)
    ensures DependsOn(c.span, Tested(c.span[c.b]), r)
    ensures p <= q <= c.b && r in c.span[q].Uses() && forall t :: p <= t < q ==> c.span[t].Def() != Some(r)
    decreases c.b - p
  {
    hide DependsOn;
    q := p;
    var i := c.span[p];
    if p == c.b {
      SeedIsDependency(c, r);
    } else if i.Def().Some? && r in i.Uses() && Live(c, c.b, p + 1, i.Def().value) {
      q := LiveIsRead(c, p + 1, i.Def().value);
      ExtendChain(c.span, Tested(c.span[c.b]), i.Def().value, r, p);
      q := p;
    } else {
      assert FeedsTest(c, c.b, p) ==> !MayBeSkipped(c, p);
      q := LiveIsRead(c, p + 1, r);
    }
  }

  /** What a wait's test depends on from the top of an iteration is never written. */
  lemma WaitCarriesNothing(c: Code)
    requires IsWaitLoop(c) && TestIsNotSkipped(c)
    ensures CarriesNothing(c, c.b)
  {
    var b: nat :| IsLastBranch(c.span, b) && IsWaitAt(c.span, b);
    assert b == c.b;
    forall r | Live(c, c.b, 0, r) ensures !WrittenBefore(c.span, |c.span|, r) {
      var q := LiveIsRead(c, 0, r);
      assert !LoopCarried(c.span, r);
      assert !WrittenBefore(c.span, q, r);
    }
  }

  /** The test of a wait is steady if and only if nothing can change the world or nothing it tests is written. */
  lemma WaitIsSteadyIff(c: Code)
    requires IsWaitLoop(c) && TestIsNotSkipped(c)
    ensures Steady(c, c.b) <==> ChangesNothing(c) || TestsNothingWritten(c, c.b)
  {
    hide IsWait, ChangesNothing, TestIsNotSkipped;
    WaitCarriesNothing(c);
    if TestsNothingWritten(c, c.b) {
      UnwrittenTestIsSteady(c, c.b);
    }
    if Steady(c, c.b) && !ChangesNothing(c) {
      forall r | r in Tested(c.span[c.b]) ensures !WrittenBefore(c.span, |c.span|, r) {
        TestedIsLive(c, c.b, 0, r);
      }
    }
  }

  /**
    Exactly when a straight-line verdict means what it should: a loop without inner branches
    that the analysis calls a wait waits for others if and only if nothing in it can change the
    world, or its test reads nothing that it writes.
   */
  lemma StraightWaitIff(c: Code)
    requires IsWaitLoop(c) && StraightLine(c)
    ensures WaitsForOthers(c) <==> ChangesNothing(c) || TestsNothingWritten(c, c.b)
  {
    assert c.b < |c.span|;
    StraightLineSkipsNothing(c);
    hide IsWaitLoop, StraightLine, FlowsForward, OnlyExitsMatter, TestIsNotSkipped, Relevant, Steady,
      ChangesNothing, TestsNothingWritten, WaitsForOthers;
    WaitsForOthersIff(c);
    WaitIsSteadyIff(c);
    assert Relevant(c, c.b) by { OwnBranchMatters(c); }
  }
}
