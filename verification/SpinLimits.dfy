/**
  Where the spin-loop analysis goes wrong: three loops it reports although each ends by itself,
  through memory, through an inner forward branch, and through a second way out.  A fourth, with
  an inner branch that does no harm, waits for others as it should.
 */
module SpinLimits {
  import opened Wrappers
  import opened MipsBody
  import opened CallGraph
  import opened SpinLoops
  import opened SpinMachine
  import opened SpinExact
  import opened SpinReport
  import opened SpinVerdict

  // ----- Showing that a loop is reported -----

  /** A closed set of registers with nothing loop-carried in it makes a wait. */
  lemma WaitByClosure(span: seq<Insn>, b: nat, deps: set<Reg>)
    requires IsLastBranch(span, b) && Tested(span[b]) != {} && Tested(span[b]) <= deps && Closed(span, deps)
    requires forall r :: r in deps ==> !LoopCarried(span, r)
    ensures IsWait(span)
  {
    forall r | DependsOn(span, Tested(span[b]), r) ensures !LoopCarried(span, r) {
      var chain :| ChainTo(span, Tested(span[b]), r, chain);
      ChainStaysInside(span, deps, chain, |chain| - 1);
    }
    assert IsWaitAt(span, b);
  }

  /** A register never written, or written before every instruction that reads it, is not carried. */
  lemma NotCarried(span: seq<Insn>, r: Reg, n: nat)
    requires n <= |span|
    requires !WrittenBefore(span, |span|, r) || (WrittenBefore(span, n, r) && forall i :: 0 <= i < n ==> r !in span[i].Uses())
    ensures !LoopCarried(span, r)
  {
  }

  /**
    A wait without calls is reported when it looks at a global that it does not store, whatever the
    rest of the program.
   */
  lemma SpinWithoutCalls(span: seq<Insn>, x: Symbol, calls: Calls, directR: Effects, directW: Effects)
    requires IsWait(span) && Mentions(span, false, x) && !Mentions(span, true, x)
    requires forall i :: 0 <= i < |span| ==> !span[i].kind.Jal? && !span[i].kind.Jalr?
    ensures IsSpin(span, calls, directR, directW)
  {
    hide IsWait, Mentions;
    assert Callees(span) == {};
    assert WaitsOn(span, calls, directR, directW, x);
  }

  // ----- Progress through memory -----

  /** Loads a counter, adds one, compares it with a limit, and stores it back in the delay slot. */
  function CountInMemory(): seq<Insn> {
    [Insn(Plain, ["v0", "at"], ["counter"], None, None),
     Insn(Plain, ["v0", "v0"], [], None, None),
     Insn(Plain, ["v1", "at"], ["limit"], None, None),
     Insn(Branch, ["v0", "v1"], [], None, Some(0)),
     Insn(Store, ["v0", "at"], ["counter"], None, None)]
  }

  lemma CounterNotCarried()
    ensures !LoopCarried(CountInMemory(), "v0") && !LoopCarried(CountInMemory(), "v1") && !LoopCarried(CountInMemory(), "at")
  {
    var span := CountInMemory();
    assert span[0].Def() == Some("v0") && span[2].Def() == Some("v1");
    NotCarried(span, "v0", 1);
    NotCarried(span, "v1", 3);
    NotCarried(span, "at", 0);
  }

  lemma CounterClosed()
    ensures Closed(CountInMemory(), {"v0", "v1", "at"})
  {
  }

  lemma CounterIsWait()
    ensures IsWait(CountInMemory()) && IsLastBranch(CountInMemory(), 3)
  {
    var span := CountInMemory();
    CounterNotCarried();
    CounterClosed();
    hide LoopCarried, Closed;
    assert span[3].Uses() == ["v0", "v1"];
    assert "v0" in Tested(span[3]);
    WaitByClosure(span, 3, {"v0", "v1", "at"});
  }

  lemma CounterIsSpin(calls: Calls, directR: Effects, directW: Effects)
    ensures IsSpin(CountInMemory(), calls, directR, directW)
  {
    var span := CountInMemory();
    CounterIsWait();
    hide IsWait;
    assert "limit" in span[2].globals && !span[2].StoresGlobal();
    assert forall i :: 0 <= i < |span| && span[i].StoresGlobal() ==> i == 4;
    SpinWithoutCalls(span, "limit", calls, directR, directW);
  }

  function Counter(): Code { Code(CountInMemory(), 0, 3, {}) }

  /**
    The world is the counter: the load sees it, the addition adds one, the store replaces it.
    The loop goes round until the counter has reached the limit.
   */
  function CounterMeaning(limit: int): Meaning<int> {
    Meaning(Calc((p: nat, args: seq<int>, w: int) => if p == 0 then w else if p == 1 && args != [] then args[0] + 1 else limit,
                 (p: nat, args: seq<int>, w: int) => if p == 4 && args != [] then args[0] else w),
            (p: nat, args: seq<int>) => |args| == 2 && args[0] != args[1])
  }

  /** Nobody else does anything. */
  function Alone(): Others<int> { (k: nat, w: int) => w }

  /**
    One pass over the counting loop, from any registers: the test sees one more than was stored, and
    that is stored.
   */
  lemma CounterPass(limit: int, s: State<int>)
    ensures Tests(Counter(), CounterMeaning(limit), s, 3) == [s.world + 1, limit]
    ensures Walk(Counter(), CounterMeaning(limit), s, 5).at.world == s.world + 1 && !Walk(Counter(), CounterMeaning(limit), s, 5).gone
  {
    var c, m := Counter(), CounterMeaning(limit);
    assert c.span[3].Uses() == ["v0", "v1"];
    assert Walk(c, m, s, 0) == Flow(s, 0, 0, false);
    var s1 := State(s.regs["v0" := s.world], s.world);
    assert Walk(c, m, s, 1) == Flow(s1, 0, 0, false);
    assert ReadAll(s1.regs, c.span[1].Uses()) == [s.world];
    var s2 := State(s1.regs["v0" := s.world + 1], s.world);
    assert Walk(c, m, s, 2) == Flow(s2, 0, 0, false);
    var s3 := State(s2.regs["v1" := limit], s.world);
    assert Walk(c, m, s, 3) == Flow(s3, 0, 0, false);
    assert Walk(c, m, s, 4) == Flow(s3, 0, 0, false);
    assert ReadAll(s3.regs, c.span[4].Uses())[0] == s.world + 1;
  }

  lemma {:induction false} CounterAt(limit: int, regs: Regs, k: nat)
    ensures AtTop(Counter(), CounterMeaning(limit), Alone(), State(regs, 0), k).world == k
  {
    hide CounterMeaning, Walk;
    if k > 0 {
      CounterAt(limit, regs, k - 1);
      CounterPass(limit, AtTop(Counter(), CounterMeaning(limit), Alone(), State(regs, 0), k - 1));
    }
  }

  lemma CounterChangesItsTest()
    ensures StraightLine(Counter()) && IsWaitLoop(Counter())
    ensures !ChangesNothing(Counter()) && !TestsNothingWritten(Counter(), 3)
  {
    var c := Counter();
    CounterIsWait();
    hide IsWait;
    assert MayChangeWorld(c.span[4], c.quiet);
    assert c.span[0].Def() == Some("v0") && "v0" in Tested(c.span[3]);
  }

  /**
    The exit test can depend on something the loop advances in memory.  The counting loop is
    straight-line and reported in every program; left alone, it goes round until its counter
    reaches the limit, and then ends.
   */
  lemma ProgressThroughMemoryIsMissed(calls: Calls, directR: Effects, directW: Effects, regs: Regs, limit: int, k: nat)
    ensures IsSpin(Counter().span, calls, directR, directW)
    ensures StraightLine(Counter()) && IsWaitLoop(Counter()) && !WaitsForOthers(Counter())
    ensures var c, m, s := Counter(), CounterMeaning(limit), State(regs, 0);
            Round(c, m, Alone(), s, k) <==> k + 1 != limit
  {
    var c, m := Counter(), CounterMeaning(limit);
    CounterIsSpin(calls, directR, directW);
    CounterChangesItsTest();
    StraightWaitIff(c);
    CounterAt(limit, regs, k);
    CounterPass(limit, AtTop(c, m, Alone(), State(regs, 0), k));
    hide IsSpin, StraightLine, IsWaitLoop, WaitsForOthers, Walk, AtTop, Tests;
  }

  // ----- Progress through an inner forward branch -----

  /**
    Loads a flag, unless a0 has been counted down to zero, counts a0 down, and goes round while
    the flag is clear; the delay slot sets the flag's register.  The first branch jumps over the
    load only, its own delay slot being empty.
   */
  function LoadUnlessDone(): seq<Insn> {
    [Insn(Branch, ["a0", "zero"], [], None, Some(3)),
     Insn(Nop, [], [], None, None),
     Insn(Plain, ["v0", "at"], ["flag"], None, None),
     Insn(Plain, ["a0", "a0"], [], None, None),
     Insn(Branch, ["v0", "zero"], [], None, Some(0)),
     Insn(Plain, ["v0"], [], None, None)]
  }

  lemma LoaderNotCarried()
    ensures !LoopCarried(LoadUnlessDone(), "v0") && !LoopCarried(LoadUnlessDone(), "at")
  {
    var span := LoadUnlessDone();
    assert span[2].Def() == Some("v0");
    NotCarried(span, "v0", 3);
    NotCarried(span, "at", 0);
  }

  lemma LoaderClosed()
    ensures Closed(LoadUnlessDone(), {"v0", "at"})
  {
  }

  lemma LoaderIsWait()
    ensures IsWait(LoadUnlessDone()) && IsLastBranch(LoadUnlessDone(), 4)
  {
    var span := LoadUnlessDone();
    LoaderNotCarried();
    LoaderClosed();
    hide LoopCarried, Closed;
    assert span[4].Uses() == ["v0", "zero"];
    assert "v0" in Tested(span[4]);
    WaitByClosure(span, 4, {"v0", "at"});
  }

  lemma LoaderIsSpin(calls: Calls, directR: Effects, directW: Effects)
    ensures IsSpin(LoadUnlessDone(), calls, directR, directW)
  {
    var span := LoadUnlessDone();
    LoaderIsWait();
    hide IsWait;
    assert "flag" in span[2].globals && !span[2].StoresGlobal();
    SpinWithoutCalls(span, "flag", calls, directR, directW);
  }

  function Loader(): Code { Code(LoadUnlessDone(), 0, 4, {}) }

  /** The world is the flag.  Both branches are taken when what they compare is equal. */
  function LoaderMeaning(): Meaning<int> {
    Meaning(Calc((p: nat, args: seq<int>, w: int) => if p == 2 then w else if p == 3 && args != [] then args[0] - 1 else 1,
                 (p: nat, args: seq<int>, w: int) => w),
            (p: nat, args: seq<int>) => |args| == 2 && args[0] == args[1])
  }

  /** What each instruction of the loop does. */
  function LoaderNext(f: Flow<int>, p: nat): Flow<int> {
    var regs, w := f.at.regs, f.at.world;
    if !f.Runs(p) then f
    else if p == 0 then if Read(regs, "a0") == 0 then Flow(f.at, 3, 1, false) else f
    else if p == 2 then f.(at := State(regs["v0" := w], w))
    else if p == 3 then f.(at := State(regs["a0" := Read(regs, "a0") - 1], w))
    else if p == 5 then f.(at := State(regs["v0" := 1], w))
    else f
  }

  lemma LoaderStep(f: Flow<int>, p: nat)
    requires p < 6
    ensures WalkStep(Loader(), LoaderMeaning(), f, p) == LoaderNext(f, p)
  {
    var c, args := Loader(), ReadAll(f.at.regs, Loader().span[p].Uses());
    if p == 0 {
      assert Inner(c, 0) && Landing(c, 0) == 3 && c.span[0].Uses() == ["a0", "zero"];
      assert args == [Read(f.at.regs, "a0"), 0];
    } else {
      assert !Inner(c, p);
      if p == 3 {
        assert args == [Read(f.at.regs, "a0")];
      }
    }
  }

  /** The first three instructions: the load runs unless a0 is zero. */
  lemma LoaderLoads(s: State<int>)
    ensures Walk(Loader(), LoaderMeaning(), s, 3)
         == if Read(s.regs, "a0") == 0 then Flow(s, 3, 1, false)
            else Flow(State(s.regs["v0" := s.world], s.world), 0, 0, false)
  {
    var c, m, f0 := Loader(), LoaderMeaning(), Flow(s, 0, 0, false);
    var f1 := LoaderNext(f0, 0);
    hide WalkStep, LoaderMeaning, LoadUnlessDone, Read;
    assert Walk(c, m, s, 0) == f0;
    LoaderStep(f0, 0);
    assert Walk(c, m, s, 1) == f1;
    LoaderStep(f1, 1);
    assert Walk(c, m, s, 2) == f1;
    LoaderStep(f1, 2);
  }

  /** What the others do from there: a0 is counted down and v0 set. */
  lemma LoaderRest(f: Flow<int>)
    requires !f.gone && f.next <= 3
    ensures var regs, w := f.at.regs, f.at.world;
            var counted := regs["a0" := Read(regs, "a0") - 1];
            && LoaderNext(f, 3) == f.(at := State(counted, w)) == LoaderNext(LoaderNext(f, 3), 4)
            && LoaderNext(LoaderNext(f, 3), 5) == f.(at := State(counted["v0" := 1], w))
  {
    hide Read;
  }

  lemma LoaderCounts(s: State<int>)
    ensures var third := Walk(Loader(), LoaderMeaning(), s, 3);
            var counted := third.at.regs["a0" := Read(third.at.regs, "a0") - 1];
            && Walk(Loader(), LoaderMeaning(), s, 4).at.regs == counted
            && Walk(Loader(), LoaderMeaning(), s, 6) == third.(at := State(counted["v0" := 1], third.at.world))
  {
    LoaderLoads(s);
    var c, m := Loader(), LoaderMeaning();
    var f3 := Walk(c, m, s, 3);
    LoaderRest(f3);
    hide WalkStep, LoaderMeaning, LoadUnlessDone, Read, LoaderNext;
    var f4 := LoaderNext(f3, 3);
    LoaderStep(f3, 3);
    assert Walk(c, m, s, 4) == f4;
    LoaderStep(f4, 4);
    assert Walk(c, m, s, 5) == f4;
    LoaderStep(f4, 5);
    assert Walk(c, m, s, 6) == LoaderNext(f4, 5);
  }

  /** One pass. */
  lemma LoaderPass(s: State<int>)
    requires "a0" in s.regs && "v0" in s.regs
    ensures Tests(Loader(), LoaderMeaning(), s, 4) == [if Read(s.regs, "a0") == 0 then Read(s.regs, "v0") else s.world, 0]
    ensures var after := Walk(Loader(), LoaderMeaning(), s, 6);
            && !after.gone && after.at.world == s.world && "a0" in after.at.regs && "v0" in after.at.regs
            && Read(after.at.regs, "a0") == Read(s.regs, "a0") - 1 && Read(after.at.regs, "v0") == 1
  {
    assert Loader().span[4].Uses() == ["v0", "zero"];
    LoaderLoads(s);
    LoaderCounts(s);
    hide Walk, LoaderMeaning, LoadUnlessDone;
  }

  function Armed(): State<int> { State(map["a0" := 1, "v0" := 1], 0) }

  lemma LoaderSecondTop()
    ensures var top := AtTop(Loader(), LoaderMeaning(), Alone(), Armed(), 1);
            "a0" in top.regs && "v0" in top.regs && Read(top.regs, "a0") == 0 && Read(top.regs, "v0") == 1 && top.world == 0
  {
    LoaderPass(Armed());
    hide LoaderMeaning, LoadUnlessDone, Walk;
    assert AtTop(Loader(), LoaderMeaning(), Alone(), Armed(), 0) == Armed();
  }

  lemma LoaderSkipsItsTest()
    ensures FlowsForward(Loader()) && ChangesNothing(Loader()) && Relevant(Loader(), 0) && !Leaves(Loader(), 0)
  {
    var c := Loader();
    assert Inner(c, 0) && Landing(c, 0) == 3 && JumpsOver(c, 0, 2);
    assert c.span[4].Uses() == ["v0", "zero"] && c.span[3].Def() == Some("a0") && c.span[2].Def() == Some("v0");
    assert Live(c, 4, 4, "v0");
    assert Live(c, 4, 3, "v0");
    assert FeedsTest(c, 4, 2);
    OwnBranchMatters(c);
    assert Matters(c, 2);
  }

  /**
    What an inner branch passes over matters.  This loop is reported in every program and changes
    nothing outside; its first branch passes over the load once a0 has reached zero.  With the
    flag clear throughout, and a0 starting at one, it goes round once and ends by itself.
   */
  lemma ForwardBranchBreaksSoundness(calls: Calls, directR: Effects, directW: Effects)
    ensures IsSpin(Loader().span, calls, directR, directW)
    ensures FlowsForward(Loader()) && ChangesNothing(Loader()) && Relevant(Loader(), 0) && !Leaves(Loader(), 0)
    ensures var c, m, o, s := Loader(), LoaderMeaning(), Alone(), Armed();
            Round(c, m, o, s, 0) && !Round(c, m, o, s, 1) && LeftAlone(c, m, o, s, 0, 1)
    ensures !WaitsForOthers(Loader()) && !HoldsStill(Loader())
  {
    var c, m, o, s := Loader(), LoaderMeaning(), Alone(), Armed();
    LoaderIsSpin(calls, directR, directW);
    LoaderSkipsItsTest();
    LoaderSecondTop();
    LoaderPass(s);
    LoaderPass(AtTop(c, m, o, s, 1));
    hide IsSpin, Relevant, ChangesNothing, FlowsForward, HoldsStill, LoadUnlessDone, Walk;
    assert AtTop(c, m, o, s, 0) == s;
    assert Round(c, m, o, s, 0) && !Round(c, m, o, s, 1);
    if HoldsStill(c) {
      HoldingStillWaits(c);
    }
  }

  // ----- Progress through a way out -----

  /**
    Polls a flag, counts a0 down in the delay slot of a branch that leaves when a0 is zero, and goes
    round while the flag is clear.
   */
  function PollWithTimeout(): seq<Insn> {
    [Insn(Plain, ["v0", "at"], ["flag"], None, None),
     Insn(Branch, ["a0", "zero"], [], None, Some(5)),
     Insn(Plain, ["a0", "a0"], [], None, None),
     Insn(Branch, ["v0", "zero"], [], None, Some(0)),
     Insn(Nop, [], [], None, None)]
  }

  lemma PollNotCarried()
    ensures !LoopCarried(PollWithTimeout(), "v0") && !LoopCarried(PollWithTimeout(), "at")
  {
    var span := PollWithTimeout();
    assert span[0].Def() == Some("v0");
    NotCarried(span, "v0", 1);
    NotCarried(span, "at", 0);
  }

  lemma PollClosed()
    ensures Closed(PollWithTimeout(), {"v0", "at"})
  {
  }

  lemma PollIsWait()
    ensures IsWait(PollWithTimeout()) && IsLastBranch(PollWithTimeout(), 3)
  {
    var span := PollWithTimeout();
    PollNotCarried();
    PollClosed();
    hide LoopCarried, Closed;
    assert span[3].Uses() == ["v0", "zero"];
    assert "v0" in Tested(span[3]);
    WaitByClosure(span, 3, {"v0", "at"});
  }

  lemma PollIsSpin(calls: Calls, directR: Effects, directW: Effects)
    ensures IsSpin(PollWithTimeout(), calls, directR, directW)
  {
    var span := PollWithTimeout();
    PollIsWait();
    hide IsWait;
    assert "flag" in span[0].globals && !span[0].StoresGlobal();
    SpinWithoutCalls(span, "flag", calls, directR, directW);
  }

  function Poll(): Code { Code(PollWithTimeout(), 0, 3, {}) }

  function PollMeaning(): Meaning<int> {
    Meaning(Calc((p: nat, args: seq<int>, w: int) => if p == 2 && args != [] then args[0] - 1 else w,
                 (p: nat, args: seq<int>, w: int) => w),
            (p: nat, args: seq<int>) => |args| == 2 && args[0] == args[1])
  }

  function PollNext(f: Flow<int>, p: nat): Flow<int> {
    var regs, w := f.at.regs, f.at.world;
    if !f.Runs(p) then f
    else if p == 0 then f.(at := State(regs["v0" := w], w))
    else if p == 1 then f.(gone := Read(regs, "a0") == 0)
    else if p == 2 then f.(at := State(regs["a0" := Read(regs, "a0") - 1], w))
    else f
  }

  lemma PollStep(f: Flow<int>, p: nat)
    requires p < 5
    ensures WalkStep(Poll(), PollMeaning(), f, p) == PollNext(f, p)
  {
    var c, args := Poll(), ReadAll(f.at.regs, Poll().span[p].Uses());
    if p == 1 {
      assert Leaves(c, 1) && c.span[1].Uses() == ["a0", "zero"];
      assert args == [Read(f.at.regs, "a0"), 0];
    } else {
      assert !Inner(c, p);
      if p == 2 {
        assert args == [Read(f.at.regs, "a0")];
      }
    }
  }

  /** With the flag clear, the first two instructions leave when a0 is zero. */
  lemma PollLoads(s: State<int>)
    requires s.world == 0 && "a0" in s.regs
    ensures Walk(Poll(), PollMeaning(), s, 2) == Flow(State(s.regs["v0" := 0], 0), 0, 0, s.regs["a0"] == 0)
  {
    var c, m, f0 := Poll(), PollMeaning(), Flow(s, 0, 0, false);
    var f1 := PollNext(f0, 0);
    assert Walk(c, m, s, 0) == f0;
    hide WalkStep, PollMeaning, PollWithTimeout;
    PollStep(f0, 0);
    assert Walk(c, m, s, 1) == f1;
    PollStep(f1, 1);
  }

  /** A pass that has left does not go round. */
  lemma PollLeft(s: State<int>)
    requires s.world == 0 && "a0" in s.regs && s.regs["a0"] == 0
    ensures !GoesRound(Poll(), PollMeaning(), s)
  {
    PollLoads(s);
    hide WalkStep, PollMeaning;
    if !Walk(Poll(), PollMeaning(), s, 5).gone {
      StillInside(Poll(), PollMeaning(), s, 2, 5);
    }
  }

  /** The others count a0 down. */
  lemma PollCounts(s: State<int>)
    requires s.world == 0 && "a0" in s.regs && s.regs["a0"] != 0
    ensures var counted := Flow(State(s.regs["v0" := 0]["a0" := s.regs["a0"] - 1], 0), 0, 0, false);
            Walk(Poll(), PollMeaning(), s, 3) == counted && Walk(Poll(), PollMeaning(), s, 5) == counted
  {
    PollLoads(s);
    var c, m, f2 := Poll(), PollMeaning(), Walk(Poll(), PollMeaning(), s, 2);
    var f3 := PollNext(f2, 2);
    hide WalkStep, PollMeaning, PollWithTimeout;
    PollStep(f2, 2);
    assert Walk(c, m, s, 3) == f3;
    PollStep(f3, 3);
    assert Walk(c, m, s, 4) == f3;
    PollStep(f3, 4);
  }

  /** One pass with the flag clear: it leaves when a0 is zero, and otherwise counts it down and goes round. */
  lemma PollPass(s: State<int>)
    requires "a0" in s.regs && s.world == 0
    ensures GoesRound(Poll(), PollMeaning(), s) <==> s.regs["a0"] != 0
    ensures s.regs["a0"] != 0 ==>
              Walk(Poll(), PollMeaning(), s, 5).at == State(s.regs["v0" := 0]["a0" := s.regs["a0"] - 1], 0)
  {
    if s.regs["a0"] == 0 {
      PollLeft(s);
    } else {
      PollCounts(s);
      assert Poll().span[3].Uses() == ["v0", "zero"];
      hide Walk;
      assert Tests(Poll(), PollMeaning(), s, 3) == [0, 0];
    }
  }

  function Timeout(n: nat): State<int> { State(map["a0" := n], 0) }

  lemma {:induction false} PollTop(n: nat, k: nat)
    requires k <= n
    ensures var top := AtTop(Poll(), PollMeaning(), Alone(), Timeout(n), k);
            "a0" in top.regs && top.regs["a0"] == n - k && top.world == 0
  {
    hide PollMeaning, Walk;
    if k > 0 {
      PollTop(n, k - 1);
      PollPass(AtTop(Poll(), PollMeaning(), Alone(), Timeout(n), k - 1));
    }
  }

  /** A body whose inner branches all leave. */
  predicate StraightWayOut(c: Code) {
    FlowsForward(c) && forall i :: 0 <= i < c.b && Inner(c, i) ==> Leaves(c, i)
  }

  lemma PollExitMoves()
    ensures StraightWayOut(Poll()) && ChangesNothing(Poll()) && !Steady(Poll(), 1)
  {
    var c := Poll();
    assert Leaves(c, 1);
    assert c.span[1].Uses() == ["a0", "zero"] && c.span[0].Def() == Some("v0") && c.span[2].Def() == Some("a0");
    assert Live(c, 1, 1, "a0");
    assert Live(c, 1, 0, "a0");
    assert WrittenBefore(c.span, |c.span|, "a0");
  }

  lemma PollDoesNotWait()
    ensures !HoldsStill(Poll()) && !WaitsForOthers(Poll())
  {
    var c := Poll();
    PollExitMoves();
    assert Leaves(c, 1) && !Leaves(c, 0) && c.span[2].Def().Some?;
    assert Relevant(c, 1);
    hide Steady, Live, Relevant, WaitsForOthers;
    WaitsForOthersIff(c);
  }

  /**
    A wait may leave another way.  The poll with a timeout is reported in every program and
    changes nothing outside; with the flag clear throughout it goes round as often as a0 says and
    then ends by itself.
   */
  lemma WayOutIsMissed(calls: Calls, directR: Effects, directW: Effects, n: nat, k: nat)
    requires k <= n
    ensures IsSpin(Poll().span, calls, directR, directW) && IsWaitLoop(Poll())
    ensures StraightWayOut(Poll()) && ChangesNothing(Poll()) && !HoldsStill(Poll()) && !WaitsForOthers(Poll())
    ensures Round(Poll(), PollMeaning(), Alone(), Timeout(n), k) <==> k < n
  {
    PollIsSpin(calls, directR, directW);
    PollIsWait();
    PollExitMoves();
    PollTop(n, k);
    PollPass(AtTop(Poll(), PollMeaning(), Alone(), Timeout(n), k));
    PollDoesNotWait();
    hide IsSpin, HoldsStill, WaitsForOthers, AtTop, GoesRound, Steady, IsWait;
  }

  // ----- A callee that yields through a pointer -----

  /** A function that waits for a message through a pointer. */
  function Caller(): Function {
    Function("wait", [Insn(Jalr, ["t9"], [], None, None), Insn(Nop, [], [], None, None)])
  }

  /** A loop that calls it and polls a flag. */
  function PollThrough(): seq<Insn> {
    [Insn(Jal, [], [], Some("wait"), None),
     Insn(Nop, [], [], None, None),
     Insn(Plain, ["v1", "at"], ["flag"], None, None),
     Insn(Branch, ["v1", "zero"], [], None, Some(0)),
     Insn(Nop, [], [], None, None)]
  }

  lemma CallerNotCarried()
    ensures !LoopCarried(PollThrough(), "v1") && !LoopCarried(PollThrough(), "at")
  {
    var span := PollThrough();
    assert span[2].Def() == Some("v1");
    NotCarried(span, "v1", 3);
    NotCarried(span, "at", 0);
  }

  lemma CallerClosed()
    ensures Closed(PollThrough(), {"v1", "at"})
  {
    assert PollThrough()[0].Def() == Some("v0");
  }

  lemma PollThroughIsWait()
    ensures IsWait(PollThrough())
  {
    var span := PollThrough();
    CallerNotCarried();
    CallerClosed();
    hide LoopCarried, Closed;
    assert span[3].Uses() == ["v1", "zero"];
    assert "v1" in Tested(span[3]);
    WaitByClosure(span, 3, {"v1", "at"});
  }

  /** In the program of that one function, nothing leads anywhere else. */
  lemma CallerReachesItself(calls: Calls, directR: Effects, directW: Effects, path: seq<Symbol>)
    requires Describes([Caller()], calls, directR, directW) && CallPath(calls, path) && path[0] == "wait"
    ensures "wait" in calls && calls["wait"] == {} && "wait" in directW && directW["wait"] == {} && |path| == 1
  {
    if |path| > 1 {
      assert path[0 + 1] in calls[path[0]];
    }
    assert Named([Caller()], "wait") by { assert [Caller()][0].name == "wait"; }
    assert BodyOf([Caller()], "wait") == Caller().body;
    assert forall i :: 0 <= i < |Caller().body| ==> !Caller().body[i].kind.Jal? && !Caller().body[i].StoresGlobal();
  }

  lemma PollThroughIsSpin(calls: Calls, directR: Effects, directW: Effects)
    requires Describes([Caller()], calls, directR, directW)
    ensures IsSpin(PollThrough(), calls, directR, directW)
  {
    var span := PollThrough();
    PollThroughIsWait();
    hide IsWait, Describes;
    assert Callees(span) == {"wait"} by {
      assert forall i :: 0 <= i < |span| && span[i].kind.Jal? ==> i == 0;
      assert span[0].kind.Jal? && span[0].callee == Some("wait");
    }
    assert Mentions(span, false, "flag") && !Mentions(span, true, "flag") by {
      assert "flag" in span[2].globals && !span[2].StoresGlobal();
    }
    forall g | Reaches(calls, "wait", g) ensures g == "wait" && "wait" in directW && directW["wait"] == {} {
      var path :| PathBetween(calls, "wait", g, path);
      CallerReachesItself(calls, directR, directW, path);
    }
    assert "wait" !in YIELD_POINTS;
    assert !CanYield(calls, YIELD_POINTS, "wait");
    hide Mentions, Callees, Reaches;
    assert WaitsOn(span, calls, directR, directW, "flag");
  }

  /** The loop is reported, and the function it calls may yield all the same. */
  lemma IndirectYieldIsMissed(calls: Calls, directR: Effects, directW: Effects)
    requires Describes([Caller()], calls, directR, directW)
    ensures IsSpin(PollThrough(), calls, directR, directW)
    ensures exists made :: Completes(calls, IndirectCallers([Caller()]), made) && CanYield(made, YIELD_POINTS, "wait")
  {
    PollThroughIsSpin(calls, directR, directW);
    hide IsSpin;
    CallerReachesItself(calls, directR, directW, ["wait"]);
    var indirect := IndirectCallers([Caller()]);
    assert "wait" in indirect by {
      assert Named([Caller()], [Caller()][0].name);
      assert BodyOf([Caller()], "wait") == Caller().body && Caller().body[0].kind.Jalr?;
      assert HasIndirectCall(BodyOf([Caller()], [Caller()][0].name));
    }
    var made := calls["wait" := {"osRecvMesg"}];
    assert Completes(calls, indirect, made);
    assert PathBetween(made, "wait", "osRecvMesg", ["wait", "osRecvMesg"]);
    assert CanYield(made, YIELD_POINTS, "wait");
  }

  // ----- An inner branch that changes nothing -----

  /** Counts a0 down unless it is zero, then loads a flag and goes round while it is clear. */
  function CountBeforeLoad(): seq<Insn> {
    [Insn(Branch, ["a0", "zero"], [], None, Some(3)),
     Insn(Nop, [], [], None, None),
     Insn(Plain, ["a0", "a0"], [], None, None),
     Insn(Plain, ["v0", "at"], ["flag"], None, None),
     Insn(Branch, ["v0", "zero"], [], None, Some(0)),
     Insn(Nop, [], [], None, None)]
  }

  function Harmless(): Code { Code(CountBeforeLoad(), 0, 4, {}) }

  lemma HarmlessLive(p: nat, r: Reg)
    requires p <= 4 && Live(Harmless(), 4, p, r)
    ensures r == (if p <= 3 then "at" else "v0")
    decreases 4 - p
  {
    var c := Harmless();
    assert c.span[4].Uses() == ["v0", "zero"] && c.span[3].Uses() == ["at"] && c.span[2].Uses() == ["a0"];
    assert forall i :: 0 <= i < 4 && Inner(c, i) ==> i == 0;
    assert Landing(c, 0) == 3 && !MayBeSkipped(c, 3);
    if p < 4 {
      if Live(c, 4, p + 1, r) {
        HarmlessLive(p + 1, r);
      }
      if c.span[p].Def().Some? && Live(c, 4, p + 1, c.span[p].Def().value) {
        HarmlessLive(p + 1, c.span[p].Def().value);
      }
    }
  }

  lemma HarmlessShape()
    ensures FlowsForward(Harmless()) && !StraightLine(Harmless()) && LoopCarried(Harmless().span, "a0")
    ensures forall i, p :: JumpsOver(Harmless(), i, p) ==> i == 0 && p == 2
  {
    var c := Harmless();
    assert Inner(c, 0) && Landing(c, 0) == 3;
    assert forall i :: 0 <= i < 4 && Inner(c, i) ==> i == 0;
    assert c.span[2].Def() == Some("a0") && "a0" in c.span[0].Uses();
  }

  lemma HarmlessIsIdle()
    ensures forall x :: 0 <= x <= 4 && Relevant(Harmless(), x) ==> x == 4
  {
    var c := Harmless();
    HarmlessShape();
    assert c.span[2].Def() == Some("a0") && c.span[0].target == Some(3);
    assert forall i :: 0 <= i < 4 && Leaves(c, i) ==> i == 0;
    assert !Leaves(c, 0);
    if FeedsTest(c, 4, 2) {
      HarmlessLive(3, "a0");
    }
    hide Live, JumpsOver, FlowsForward, StraightLine, LoopCarried, Leaves;
    assert !Relevant(c, 3);
    assert !Relevant(c, 2);
    assert !Matters(c, 2);
  }

  lemma HarmlessIsSteady()
    ensures Steady(Harmless(), 4)
  {
    var c := Harmless();
    assert c.span[2].Def() == Some("a0") && c.span[3].Def() == Some("v0") && c.span[0].Def() == c.span[1].Def() == None;
    assert c.span[4].Def() == c.span[5].Def() == None;
    hide Live;
    forall r | Live(c, 4, 0, r) ensures !WrittenBefore(c.span, 6, r) {
      HarmlessLive(0, r);
    }
  }

  /**
    An inner branch, even on a register that the loop counts down, is harmless when it passes over
    nothing that feeds the test.
   */
  lemma HarmlessBranchWaits()
    ensures FlowsForward(Harmless()) && !StraightLine(Harmless()) && LoopCarried(Harmless().span, "a0")
    ensures HoldsStill(Harmless()) && WaitsForOthers(Harmless())
  {
    HarmlessShape();
    HarmlessIsIdle();
    HarmlessIsSteady();
    hide FlowsForward, StraightLine, LoopCarried, Relevant, Steady, WaitsForOthers;
    HoldingStillWaits(Harmless());
  }
}
