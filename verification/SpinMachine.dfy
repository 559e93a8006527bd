/**
  What a wait is worth: the analysed loops run on a machine of registers and an outside
  world.  Instruction `p` computes a fixed function of the registers it uses and of the
  world; stores and calls may also change the world; everybody else may change it between
  iterations.  Inner branches go where their targets say: over some of the body, or out of it.

  A loop waits for others when it cannot leave by itself: left alone, an iteration that goes
  round is followed by others that go round.  A condition on the body is proved enough for
  that; SpinExact proves when it is exact.
 */
module SpinMachine {
  import opened Wrappers
  import opened MipsBody
  import opened SpinLoops

  // ----- The machine -----

  type Regs = map<Reg, int>

  datatype State<W> = State(regs: Regs, world: W)

  /** What instruction `p` computes from the values it uses and the world, and what it makes of the world. */
  datatype Calc<!W> = Calc(value: (nat, seq<int>, W) -> int, impact: (nat, seq<int>, W) -> W)

  /** That, and whether the branch at `p` is taken for the values it tests. */
  datatype Meaning<!W> = Meaning(op: Calc<W>, taken: (nat, seq<int>) -> bool)

  /**
    A loop: its body, the index of its first instruction in its function, where in the body its
    branch is, and the callees taken to change nothing.
   */
  datatype Code = Code(span: seq<Insn>, start: nat, b: nat, quiet: set<Symbol>)

  /** What others make of the world after iteration `k`. */
  type Others<!W> = (nat, W) -> W

  function Read(st: Regs, u: Reg): int {
    if u == ZERO || u !in st then 0 else st[u]
  }

  function ReadAll(st: Regs, us: seq<Reg>): (vs: seq<int>)
    ensures |vs| == |us| && forall i :: 0 <= i < |us| ==> vs[i] == Read(st, us[i])
  {
    seq(|us|, i requires 0 <= i < |us| => Read(st, us[i]))
  }

  /** Stores, and calls of anything not known to be quiet. */
  predicate MayChangeWorld(i: Insn, quiet: set<Symbol>) {
    match i.kind
    case Store | StoreCop2 | Jalr => true
    case Jal => i.callee.None? || i.callee.value !in quiet
    case _ => false
  }

  function StepOf<W>(c: Code, op: Calc<W>, before: State<W>, p: nat): State<W>
    requires p < |c.span|
  {
    var i := c.span[p];
    var args := ReadAll(before.regs, i.Uses());
    State(if i.Def().None? then before.regs else before.regs[i.Def().value := op.value(p, args, before.world)],
          if MayChangeWorld(i, c.quiet) then op.impact(p, args, before.world) else before.world)
  }

  // ----- Where branches go -----

  /** A branch of the body other than its own back edge. */
  predicate Inner(c: Code, i: nat) {
    i < c.b < |c.span| && c.span[i].IsBranch()
  }

  /** An inner branch out of the loop: to no known place, back before it, or past its branch. */
  predicate Leaves(c: Code, i: nat) {
    Inner(c, i) && (c.span[i].target.None? || c.span[i].target.value < c.start || c.span[i].target.value > c.start + c.b)
  }

  /** The place in the body that the branch at `i` goes to. */
  function Landing(c: Code, i: nat): nat
    requires Inner(c, i)
  {
    if c.span[i].target.Some? && c.span[i].target.value > c.start then c.span[i].target.value - c.start else 0
  }

  /**
    Going one way, the branch at `i` passes over instruction `p`: what a jump skips, or the delay
    slot of a likely branch.
   */
  predicate JumpsOver(c: Code, i: nat, p: nat) {
    Inner(c, i) && ((!Leaves(c, i) && i + 1 < p < Landing(c, i)) || (c.span[i].kind.Likely? && p == i + 1))
  }

  predicate MayBeSkipped(c: Code, p: nat) {
    exists i :: 0 <= i < p && JumpsOver(c, i, p)
  }

  /**
    The inner branches go forward or out, and none is in a delay slot or has the loop's own
    branch in its own.  Bodies with loops inside are out of reach of the machine.
   */
  predicate FlowsForward(c: Code) {
    c.b < |c.span|
    && forall i :: 0 <= i < c.b && Inner(c, i) ==>
                     i + 1 < c.b && !c.span[i + 1].IsBranch() && (Leaves(c, i) || i + 1 < Landing(c, i) <= c.b)
  }

  // ----- Running the loop -----

  /**
    A pass part of the way: the state, the place the last jump went to, the delay slot that it
    runs on its way there, and whether the loop has been left.
   */
  datatype Flow<W> = Flow(at: State<W>, next: nat, slot: nat, gone: bool) {
    predicate Runs(p: nat) { !gone && (p >= next || p == slot) }
  }

  function WalkStep<W>(c: Code, m: Meaning<W>, f: Flow<W>, p: nat): Flow<W>
    requires p < |c.span|
  {
    if !f.Runs(p) then f else
    var at := StepOf(c, m.op, f.at, p);
    if !Inner(c, p) then f.(at := at)
    else if m.taken(p, ReadAll(f.at.regs, c.span[p].Uses())) then
      if Leaves(c, p) then f.(gone := true) else Flow(at, Landing(c, p), p + 1, false)
    else if c.span[p].kind.Likely? then f.(at := at, next := p + 2)
    else f.(at := at)
  }

  /** The first `p` instructions of one pass over the body. */
  function Walk<W>(c: Code, m: Meaning<W>, s: State<W>, p: nat): Flow<W>
    requires p <= |c.span|
  {
    if p == 0 then Flow(s, 0, 0, false) else WalkStep(c, m, Walk(c, m, s, p - 1), p - 1)
  }

  /** The values that the branch at `p` tests in a pass from `s`. */
  function Tests<W>(c: Code, m: Meaning<W>, s: State<W>, p: nat): seq<int>
    requires p < |c.span|
  {
    ReadAll(Walk(c, m, s, p).at.regs, c.span[p].Uses())
  }

  /** A pass that gets to the end and takes the back edge. */
  predicate GoesRound<W>(c: Code, m: Meaning<W>, s: State<W>)
    requires c.b < |c.span|
  {
    !Walk(c, m, s, |c.span|).gone && m.taken(c.b, Tests(c, m, s, c.b))
  }

  /** The state at the top of iteration `k`, every iteration before it having gone round. */
  function AtTop<W>(c: Code, m: Meaning<W>, o: Others<W>, s: State<W>, k: nat): State<W> {
    if k == 0 then s else
    var after := Walk(c, m, AtTop(c, m, o, s, k - 1), |c.span|).at;
    after.(world := o(k - 1, after.world))
  }

  predicate Round<W>(c: Code, m: Meaning<W>, o: Others<W>, s: State<W>, k: nat)
    requires c.b < |c.span|
  {
    GoesRound(c, m, AtTop(c, m, o, s, k))
  }

  function WorldAfter<W>(c: Code, m: Meaning<W>, o: Others<W>, s: State<W>, k: nat): W {
    Walk(c, m, AtTop(c, m, o, s, k), |c.span|).at.world
  }

  /** Nobody else changes the world between the tops of iterations `j` and `k`. */
  ghost predicate LeftAlone<W>(c: Code, m: Meaning<W>, o: Others<W>, s: State<W>, j: nat, k: nat) {
    forall i: nat :: j <= i < k ==> o(i, WorldAfter(c, m, o, s, i)) == WorldAfter(c, m, o, s, i)
  }

  /** Left alone, an iteration that goes round is followed by others that do, whatever the instructions mean. */
  ghost predicate WaitsForOthers(c: Code)
    requires c.b < |c.span|
  {
    forall m: Meaning<int>, o: Others<int>, s: State<int>, j: nat, k: nat ::
      j <= k && LeftAlone(c, m, o, s, j, k) && Round(c, m, o, s, j) ==> Round(c, m, o, s, k)
  }

  // ----- What matters to leaving -----

  /** The value of `r` when instruction `p` is reached can find its way into the test at `x`. */
  predicate Live(c: Code, x: nat, p: nat, r: Reg)
    requires p <= x < |c.span|
    decreases x - p
  {
    var i := c.span[p];
    r != ZERO
    && if p == x then r in i.Uses()
    else (i.Def().Some? && r in i.Uses() && Live(c, x, p + 1, i.Def().value))
         || ((i.Def() != Some(r) || MayBeSkipped(c, p)) && Live(c, x, p + 1, r))
  }

  /** Instruction `p` defines something that can find its way into the test at `x`. */
  predicate FeedsTest(c: Code, x: nat, p: nat)
    requires x < |c.span|
  {
    p < x && c.span[p].Def().Some? && Live(c, x, p + 1, c.span[p].Def().value)
  }

  /** The branch at `i` has a say in leaving: it is the loop's own, a way out, or passes over something that has. */
  predicate Relevant(c: Code, i: nat)
    requires i <= c.b < |c.span|
    decreases c.b - i, 0
  {
    i == c.b || Leaves(c, i) || exists p :: i < p <= c.b && JumpsOver(c, i, p) && Matters(c, p)
  }

  /** Instruction `p` has a say in leaving: as a relevant branch, or by feeding the test of one. */
  predicate Matters(c: Code, p: nat)
    requires p <= c.b < |c.span|
    decreases c.b - p, 1
  {
    exists x :: p <= x <= c.b && Relevant(c, x) && (p == x || FeedsTest(c, x, p))
  }

  /** No instruction of the body can change the world. */
  predicate ChangesNothing(c: Code) {
    forall i :: 0 <= i < |c.span| ==> !MayChangeWorld(c.span[i], c.quiet)
  }

  /** What the test at `x` depends on from the top of an iteration is never written. */
  ghost predicate CarriesNothing(c: Code, x: nat)
    requires x < |c.span|
  {
    forall r :: Live(c, x, 0, r) ==> !WrittenBefore(c.span, |c.span|, r)
  }

  /** The test at `x` comes out the same in all iterations that are left alone. */
  ghost predicate Steady(c: Code, x: nat)
    requires x < |c.span|
  {
    CarriesNothing(c, x) && (ChangesNothing(c) || forall p :: 0 <= p < x ==> !FeedsTest(c, x, p))
  }

  /** The condition: every branch with a say in leaving is steady. */
  ghost predicate HoldsStill(c: Code)
    requires c.b < |c.span|
  {
    forall x :: 0 <= x <= c.b && Relevant(c, x) ==> Steady(c, x)
  }

  // ----- One pass -----

  lemma {:induction false} UnwrittenKept<W>(c: Code, m: Meaning<W>, s: State<W>, p: nat, r: Reg)
    requires p <= |c.span| && !WrittenBefore(c.span, |c.span|, r)
    ensures Read(Walk(c, m, s, p).at.regs, r) == Read(s.regs, r)
  {
    if p > 0 {
      UnwrittenKept(c, m, s, p - 1, r);
      assert c.span[p - 1].Def() != Some(r);
    }
  }

  lemma {:induction false} UnwrittenConstant<W>(c: Code, m: Meaning<W>, o: Others<W>, s: State<W>, k: nat, r: Reg)
    requires !WrittenBefore(c.span, |c.span|, r)
    ensures Read(AtTop(c, m, o, s, k).regs, r) == Read(s.regs, r)
  {
    if k > 0 {
      UnwrittenConstant(c, m, o, s, k - 1, r);
      UnwrittenKept(c, m, AtTop(c, m, o, s, k - 1), |c.span|, r);
    }
  }

  lemma {:induction false} WorldKept<W>(c: Code, m: Meaning<W>, s: State<W>, p: nat)
    requires ChangesNothing(c) && p <= |c.span|
    ensures Walk(c, m, s, p).at.world == s.world
  {
    if p > 0 {
      WorldKept(c, m, s, p - 1);
    }
  }

  lemma {:induction false} WorldStays<W>(c: Code, m: Meaning<W>, o: Others<W>, s: State<W>, j: nat, k: nat)
    requires ChangesNothing(c) && j <= k && LeftAlone(c, m, o, s, j, k)
    ensures AtTop(c, m, o, s, k).world == AtTop(c, m, o, s, j).world
    decreases k
  {
    if j < k {
      WorldStays(c, m, o, s, j, k - 1);
      WorldKept(c, m, AtTop(c, m, o, s, k - 1), |c.span|);
      assert WorldAfter(c, m, o, s, k - 1) == AtTop(c, m, o, s, k - 1).world;
    }
  }

  /** A pass that is still inside was inside before. */
  lemma {:induction false} StillInside<W>(c: Code, m: Meaning<W>, s: State<W>, p: nat, q: nat)
    requires p <= q <= |c.span| && !Walk(c, m, s, q).gone
    ensures !Walk(c, m, s, p).gone
    decreases q
  {
    if p < q {
      StillInside(c, m, s, p, q - 1);
    }
  }

  /** Past the loop's own branch nothing leaves. */
  lemma {:induction false} StaysInside<W>(c: Code, m: Meaning<W>, s: State<W>, p: nat)
    requires c.b <= p <= |c.span| && !Walk(c, m, s, c.b).gone
    ensures !Walk(c, m, s, p).gone
    decreases p
  {
    if p > c.b {
      StaysInside(c, m, s, p - 1);
    }
  }

  /**
    Jumps land inside the body, a delay slot belongs to an inner branch, and what does not run has
    been passed over.
   */
  ghost predicate InShape<W>(c: Code, f: Flow<W>, p: nat) {
    && f.next <= c.b && (p == 0 ==> f.next == 0) && f.slot <= p && (f.slot == 0 || Inner(c, f.slot - 1))
    && forall q :: p <= q && !f.gone && !f.Runs(q) ==> MayBeSkipped(c, q)
  }

  lemma StepInShape<W>(c: Code, m: Meaning<W>, f: Flow<W>, p: nat)
    requires FlowsForward(c) && p < |c.span| && InShape(c, f, p)
    ensures InShape(c, WalkStep(c, m, f, p), p + 1)
  {
    hide StepOf;
    if f.Runs(p) && Inner(c, p) {
      forall q | p + 1 <= q && !WalkStep(c, m, f, p).gone && !WalkStep(c, m, f, p).Runs(q) ensures MayBeSkipped(c, q) {
        assert JumpsOver(c, p, q);
      }
    }
  }

  lemma {:induction false} WalkInShape<W>(c: Code, m: Meaning<W>, s: State<W>, p: nat)
    requires FlowsForward(c) && p <= |c.span|
    ensures InShape(c, Walk(c, m, s, p), p)
  {
    if p > 0 {
      WalkInShape(c, m, s, p - 1);
      StepInShape(c, m, Walk(c, m, s, p - 1), p - 1);
    }
  }

  // ----- Two passes compared -----

  /** What feeds a relevant test is computed in the same world in both passes. */
  ghost predicate SeeTheSame<W>(c: Code, m: Meaning<W>, s: State<W>, t: State<W>)
    requires c.b < |c.span|
  {
    forall x, p :: 0 <= p <= x <= c.b && Relevant(c, x) && FeedsTest(c, x, p)
                   ==> Walk(c, m, s, p).at.world == Walk(c, m, t, p).at.world
  }

  /** Two passes, part of the way, agree on what is live for a relevant test. */
  ghost predicate LiveAgrees<W>(c: Code, f: Flow<W>, g: Flow<W>, p: nat)
    requires p <= c.b < |c.span|
  {
    forall x, r :: p <= x <= c.b && Relevant(c, x) && Live(c, x, p, r) ==> Read(f.at.regs, r) == Read(g.at.regs, r)
  }

  /** Neither has left, and both will run, or both pass over, whatever matters from here on. */
  ghost predicate PathsAgree<W>(c: Code, f: Flow<W>, g: Flow<W>, p: nat)
    requires p <= c.b < |c.span|
  {
    !f.gone && !g.gone && forall q :: p <= q <= c.b && Matters(c, q) ==> (f.Runs(q) <==> g.Runs(q))
  }

  /** An instruction that matters and runs reads the same values in both. */
  lemma SameOperands<W>(c: Code, f: Flow<W>, g: Flow<W>, p: nat)
    requires p <= c.b < |c.span| && LiveAgrees(c, f, g, p) && Matters(c, p)
    ensures ReadAll(f.at.regs, c.span[p].Uses()) == ReadAll(g.at.regs, c.span[p].Uses())
  {
    hide MayBeSkipped, Relevant;
    var x :| p <= x <= c.b && Relevant(c, x) && (p == x || FeedsTest(c, x, p));
    var uses := c.span[p].Uses();
    forall i | 0 <= i < |uses| ensures Read(f.at.regs, uses[i]) == Read(g.at.regs, uses[i]) {
      if uses[i] != ZERO {
        assert Live(c, x, p, uses[i]);
      }
    }
  }

  lemma RelevantMatters(c: Code, p: nat)
    requires p <= c.b < |c.span|
    ensures Relevant(c, p) ==> Matters(c, p)
  {
  }

  /** A branch that does not matter may go either way without changing what runs of the things that do. */
  lemma IdleBranch<W>(c: Code, m: Meaning<W>, f: Flow<W>, p: nat, q: nat)
    requires FlowsForward(c) && InShape(c, f, p) && p < q <= c.b && Matters(c, q)
    requires Inner(c, p) && !Matters(c, p) && !f.gone
    ensures !WalkStep(c, m, f, p).gone && (WalkStep(c, m, f, p).Runs(q) <==> f.Runs(q))
  {
    hide StepOf, Matters;
    RelevantMatters(c, p);
    assert !JumpsOver(c, p, q);
  }

  lemma OwnBranchMatters(c: Code)
    requires c.b < |c.span|
    ensures Relevant(c, c.b) && Matters(c, c.b)
  {
    RelevantMatters(c, c.b);
  }

  /** A branch that matters goes the same way in both. */
  lemma SameWay<W>(c: Code, m: Meaning<W>, f: Flow<W>, g: Flow<W>, p: nat, q: nat)
    requires p < q <= c.b < |c.span| && InShape(c, f, p) && InShape(c, g, p)
    requires PathsAgree(c, f, g, p) && LiveAgrees(c, f, g, p)
    requires Inner(c, p) && Matters(c, p) && Matters(c, q) && !WalkStep(c, m, f, p).gone
    ensures !WalkStep(c, m, g, p).gone && (WalkStep(c, m, f, p).Runs(q) <==> WalkStep(c, m, g, p).Runs(q))
  {
    SameOperands(c, f, g, p);
    hide StepOf, Relevant, LiveAgrees, Matters, MayBeSkipped, Leaves, ReadAll;
  }

  lemma StepPaths<W>(c: Code, m: Meaning<W>, f: Flow<W>, g: Flow<W>, p: nat)
    requires FlowsForward(c) && p < c.b && InShape(c, f, p) && InShape(c, g, p)
    requires PathsAgree(c, f, g, p) && LiveAgrees(c, f, g, p)
    requires !WalkStep(c, m, f, p).gone
    ensures PathsAgree(c, WalkStep(c, m, f, p), WalkStep(c, m, g, p), p + 1)
  {
    hide StepOf, Relevant, LiveAgrees, InShape, Matters;
    OwnBranchMatters(c);
    if Inner(c, p) {
      forall q | p + 1 <= q <= c.b && Matters(c, q)
        ensures !WalkStep(c, m, g, p).gone && (WalkStep(c, m, f, p).Runs(q) <==> WalkStep(c, m, g, p).Runs(q))
      {
        if Matters(c, p) {
          SameWay(c, m, f, g, p, q);
        } else {
          IdleBranch(c, m, f, p, q);
          IdleBranch(c, m, g, p, q);
        }
      }
    }
  }

  /** One instruction on, what is live still agrees. */
  lemma StepLive<W>(c: Code, m: Meaning<W>, f: Flow<W>, g: Flow<W>, p: nat, x: nat, r: Reg)
    requires p < x <= c.b < |c.span| && InShape(c, f, p) && InShape(c, g, p)
    requires PathsAgree(c, f, g, p) && LiveAgrees(c, f, g, p)
    requires FeedsTest(c, x, p) ==> f.at.world == g.at.world
    requires Relevant(c, x) && Live(c, x, p + 1, r)
    ensures Read(WalkStep(c, m, f, p).at.regs, r) == Read(WalkStep(c, m, g, p).at.regs, r)
  {
    hide Relevant, MayBeSkipped;
    if c.span[p].Def() == Some(r) {
      assert FeedsTest(c, x, p) && Matters(c, p);
      if f.Runs(p) {
        SameOperands(c, f, g, p);
      } else {
        assert MayBeSkipped(c, p);
        assert Live(c, x, p, r);
      }
    } else {
      assert Live(c, x, p, r);
    }
  }

  /** Two passes from tops that agree on what is never written stay together up to the loop's branch. */
  lemma {:induction false} PassesAgree<W>(c: Code, m: Meaning<W>, s: State<W>, t: State<W>, p: nat)
    requires FlowsForward(c) && p <= c.b < |c.span| && !Walk(c, m, s, p).gone
    requires forall x :: 0 <= x <= c.b && Relevant(c, x) ==> CarriesNothing(c, x)
    requires forall q :: !WrittenBefore(c.span, |c.span|, q) ==> Read(s.regs, q) == Read(t.regs, q)
    requires SeeTheSame(c, m, s, t)
    ensures PathsAgree(c, Walk(c, m, s, p), Walk(c, m, t, p), p)
    ensures LiveAgrees(c, Walk(c, m, s, p), Walk(c, m, t, p), p)
  {
    hide WalkStep, InShape, Matters, FeedsTest, Live, FlowsForward, Relevant;
    if p > 0 {
      StillInside(c, m, s, p - 1, p);
      PassesAgree(c, m, s, t, p - 1);
      var f, g := Walk(c, m, s, p - 1), Walk(c, m, t, p - 1);
      WalkInShape(c, m, s, p - 1);
      WalkInShape(c, m, t, p - 1);
      StepPaths(c, m, f, g, p - 1);
      forall x, r | p <= x <= c.b && Relevant(c, x) && Live(c, x, p, r)
        ensures Read(WalkStep(c, m, f, p - 1).at.regs, r) == Read(WalkStep(c, m, g, p - 1).at.regs, r)
      {
        StepLive(c, m, f, g, p - 1, x, r);
      }
    }
  }

  /**
    Two passes whose tops agree on what is never written, and which compute what feeds the
    relevant tests in the same world, test the same values; if one goes round so does the other.
   */
  lemma PassesTestSameValues<W>(c: Code, m: Meaning<W>, s: State<W>, t: State<W>)
    requires FlowsForward(c) && GoesRound(c, m, s) && SeeTheSame(c, m, s, t)
    requires forall x :: 0 <= x <= c.b && Relevant(c, x) ==> CarriesNothing(c, x)
    requires forall q :: !WrittenBefore(c.span, |c.span|, q) ==> Read(s.regs, q) == Read(t.regs, q)
    ensures Tests(c, m, s, c.b) == Tests(c, m, t, c.b) && GoesRound(c, m, t)
  {
    hide CarriesNothing, WrittenBefore, Relevant, Matters, SeeTheSame;
    StillInside(c, m, s, c.b, |c.span|);
    PassesAgree(c, m, s, t, c.b);
    StaysInside(c, m, t, c.b);
    StaysInside(c, m, t, |c.span|);
    OwnBranchMatters(c);
    SameOperands(c, Walk(c, m, s, c.b), Walk(c, m, t, c.b), c.b);
  }

  /**
    Soundness, iteration by iteration.  After an iteration that goes round, any other that
    computes what feeds the relevant tests in the same world tests the same values and goes
    round, whatever happened in between, as long as no relevant test carries anything over.
   */
  lemma WaitTestsSameValues<W>(c: Code, m: Meaning<W>, o: Others<W>, s: State<W>, j: nat, k: nat)
    requires FlowsForward(c) && Round(c, m, o, s, j)
    requires forall x :: 0 <= x <= c.b && Relevant(c, x) ==> CarriesNothing(c, x)
    requires SeeTheSame(c, m, AtTop(c, m, o, s, j), AtTop(c, m, o, s, k))
    ensures Tests(c, m, AtTop(c, m, o, s, j), c.b) == Tests(c, m, AtTop(c, m, o, s, k), c.b) && Round(c, m, o, s, k)
  {
    hide CarriesNothing, WrittenBefore, Relevant, SeeTheSame;
    forall q | !WrittenBefore(c.span, |c.span|, q)
      ensures Read(AtTop(c, m, o, s, j).regs, q) == Read(AtTop(c, m, o, s, k).regs, q)
    {
      UnwrittenConstant(c, m, o, s, j, q);
      UnwrittenConstant(c, m, o, s, k, q);
    }
    PassesTestSameValues(c, m, AtTop(c, m, o, s, j), AtTop(c, m, o, s, k));
  }

  /** A loop that holds still, left alone, goes round again and tests the same values. */
  lemma RoundAgain<W>(c: Code, m: Meaning<W>, o: Others<W>, s: State<W>, j: nat, k: nat)
    requires FlowsForward(c) && HoldsStill(c) && Round(c, m, o, s, j)
    requires j <= k && LeftAlone(c, m, o, s, j, k)
    ensures Tests(c, m, AtTop(c, m, o, s, j), c.b) == Tests(c, m, AtTop(c, m, o, s, k), c.b) && Round(c, m, o, s, k)
  {
    hide Relevant, Live, CarriesNothing, GoesRound, Walk;
    var top1, top2 := AtTop(c, m, o, s, j), AtTop(c, m, o, s, k);
    if ChangesNothing(c) {
      WorldStays(c, m, o, s, j, k);
      forall p | 0 <= p <= c.b ensures Walk(c, m, top1, p).at.world == Walk(c, m, top2, p).at.world {
        WorldKept(c, m, top1, p);
        WorldKept(c, m, top2, p);
      }
    }
    assert SeeTheSame(c, m, top1, top2) by {
      forall x, p | 0 <= p <= x <= c.b && Relevant(c, x) && FeedsTest(c, x, p)
        ensures Walk(c, m, top1, p).at.world == Walk(c, m, top2, p).at.world
      {
        assert Steady(c, x);
      }
    }
    WaitTestsSameValues(c, m, o, s, j, k);
  }

  // ----- What the condition gives -----

  /** The condition is enough, whatever the inner branches pass over. */
  lemma HoldingStillWaits(c: Code)
    requires FlowsForward(c) && HoldsStill(c)
    ensures WaitsForOthers(c)
  {
    hide HoldsStill, Round, LeftAlone;
    assert c.b < |c.span|;
    hide FlowsForward;
    forall m: Meaning<int>, o: Others<int>, s: State<int>, j: nat, k: nat
      | j <= k && LeftAlone(c, m, o, s, j, k) && Round(c, m, o, s, j)
      ensures Round(c, m, o, s, k)
    {
      RoundAgain(c, m, o, s, j, k);
    }
  }

  /**
    Only somebody else ends such a loop: between an iteration that went round and one that leaves,
    by any way out, another changed the world.
   */
  lemma OnlyOthersEndWait<W>(c: Code, m: Meaning<W>, o: Others<W>, s: State<W>, k: nat, exit: nat)
    requires FlowsForward(c) && HoldsStill(c)
    requires k < exit && Round(c, m, o, s, k) && !Round(c, m, o, s, exit)
    ensures exists i: nat :: k <= i < exit && o(i, WorldAfter(c, m, o, s, i)) != WorldAfter(c, m, o, s, i)
  {
    if LeftAlone(c, m, o, s, k, exit) {
      RoundAgain(c, m, o, s, k, exit);
    }
  }

  /** Once such a loop has gone round, it goes round for as long as the others leave the world alone. */
  lemma TakenForever<W>(c: Code, m: Meaning<W>, o: Others<W>, s: State<W>, first: nat, k: nat)
    requires FlowsForward(c) && HoldsStill(c) && Round(c, m, o, s, first)
    requires first <= k && LeftAlone(c, m, o, s, first, k)
    ensures Round(c, m, o, s, k)
  {
    RoundAgain(c, m, o, s, first, k);
  }
}
