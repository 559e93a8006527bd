/**
  What the rows of the report say about the functions they are in, position by position: which
  instructions belong to the loop of a row, what they make it name, and what keeps a branch out of
  the report.
 */
module SpinRows {
  import opened Wrappers
  import opened MipsBody
  import opened CallGraph
  import opened SpinLoops
  import opened SpinReport
  import opened SpinLimits

  /**
    An ordinary instruction's operands are what it defines and then what it uses; a call defines v0
    besides using all of its own, and stores, branches and nops define nothing.
   */
  lemma OperandsByKind(insn: Insn)
    ensures insn.kind.Plain? || insn.kind.StoreCop2? ==> (if insn.Def().Some? then [insn.Def().value] else []) + insn.Uses() == insn.regs
    ensures insn.kind.Plain? || insn.kind.StoreCop2? ==> (insn.Def().None? <==> insn.regs == [])
    ensures insn.kind.Jal? || insn.kind.Jalr? ==> insn.Def() == Some("v0") && insn.Uses() == insn.regs
    ensures insn.kind.Store? || insn.kind.Branch? || insn.kind.Likely? || insn.kind.Nop? ==> insn.Def() == None && insn.Uses() == insn.regs
    ensures insn.TransfersControl() <==> insn.kind.Jal? || insn.kind.Jalr? || insn.kind.Branch? || insn.kind.Likely?
    ensures insn.StoresGlobal() <==> insn.kind.Store? || insn.kind.StoreCop2?
  {
  }

  /** The loop is every instruction from the branch's target to the one after the branch, and no other. */
  lemma LoopIsTargetToDelaySlot(body: seq<Insn>, i: nat)
    requires ClosesLoop(body, i)
    ensures forall q: nat :: body[i].target.value <= q <= i + 1 && q < |body| ==>
                               q - body[i].target.value < |LoopBody(body, i)| && LoopBody(body, i)[q - body[i].target.value] == body[q]
    ensures body[i].target.value + |LoopBody(body, i)| <= i + 2 && body[i].target.value + |LoopBody(body, i)| <= |body|
  {
  }

  /**
    The body that counts under a name is that of the last function so named, whatever stands before
    and after it.
   */
  lemma {:induction false} LastOfNameCounts(funcs: seq<Function>, n: nat)
    requires n < |funcs| && forall m :: n < m < |funcs| ==> funcs[m].name != funcs[n].name
    ensures Named(funcs, funcs[n].name) && BodyOf(funcs, funcs[n].name) == funcs[n].body
  {
    if n < |funcs| - 1 {
      LastOfNameCounts(funcs[..|funcs| - 1], n);
    }
  }

  lemma MentionedInLoop(body: seq<Insn>, i: nat, store: bool, x: Symbol)
    requires ClosesLoop(body, i)
    ensures Mentions(LoopBody(body, i), store, x)
       <==> exists q: nat :: body[i].target.value <= q <= i + 1 && q < |body| && body[q].StoresGlobal() == store && x in body[q].globals
  {
    var start, loop := body[i].target.value, LoopBody(body, i);
    LoopIsTargetToDelaySlot(body, i);
    if k :| 0 <= k < |loop| && loop[k].StoresGlobal() == store && x in loop[k].globals {
      assert loop[k] == body[start + k];
    }
    if q: nat :| start <= q <= i + 1 && q < |body| && body[q].StoresGlobal() == store && x in body[q].globals {
      assert loop[q - start] == body[q];
    }
  }

  lemma CalledInLoop(body: seq<Insn>, i: nat, f: Symbol)
    requires ClosesLoop(body, i)
    ensures f in Callees(LoopBody(body, i))
       <==> exists q: nat :: body[i].target.value <= q <= i + 1 && q < |body| && body[q].kind.Jal? && body[q].callee == Some(f)
  {
    var start, loop := body[i].target.value, LoopBody(body, i);
    LoopIsTargetToDelaySlot(body, i);
    if f in Callees(loop) {
      var k :| 0 <= k < |loop| && loop[k].kind.Jal? && loop[k].callee.Some? && loop[k].callee.value == f;
      assert loop[k] == body[start + k];
    }
    if q: nat :| start <= q <= i + 1 && q < |body| && body[q].kind.Jal? && body[q].callee == Some(f) {
      assert loop[q - start] == body[q];
    }
  }

  lemma TouchedInLoop(body: seq<Insn>, i: nat, store: bool, calls: Calls, direct: Effects, x: Symbol)
    requires ClosesLoop(body, i)
    ensures var start, end := body[i].target.value, i + 1;
            LoopTouches(LoopBody(body, i), store, calls, direct, x)
            <==> || (exists q: nat :: start <= q <= end && q < |body| && body[q].StoresGlobal() == store && x in body[q].globals)
                 || exists q: nat, g :: start <= q <= end && q < |body| && body[q].kind.Jal? && body[q].callee.Some?
                                        && Reaches(calls, body[q].callee.value, g) && g in direct && x in direct[g]
  {
    var start, end := body[i].target.value, i + 1;
    MentionedInLoop(body, i, store, x);
    hide Mentions, LoopBody, Reaches, ClosesLoop;
    if c, g :| c in Callees(LoopBody(body, i)) && Reaches(calls, c, g) && g in direct && x in direct[g] {
      CalledInLoop(body, i, c);
      var q: nat :| start <= q <= end && q < |body| && body[q].kind.Jal? && body[q].callee == Some(c);
      assert Reaches(calls, body[q].callee.value, g);
    }
    if q: nat, g :| start <= q <= end && q < |body| && body[q].kind.Jal? && body[q].callee.Some?
                    && Reaches(calls, body[q].callee.value, g) && g in direct && x in direct[g] {
      CalledInLoop(body, i, body[q].callee.value);
    }
  }

  /**
    A row names exactly what some instruction from the target to the delay slot looks at, or a
    function it leads to does, and none of them stores.
   */
  lemma RowNamesExactly(funcs: seq<Function>, calls: Calls, directR: Effects, directW: Effects, row: Row, x: Symbol)
    requires Reportable(funcs, calls, directR, directW, row)
    ensures
      var body, start, end := funcs[row.func].body, funcs[row.func].body[row.branch].target.value, row.branch + 1;
      x in row.waited <==>
           && ((exists q: nat :: start <= q <= end && q < |body| && !body[q].StoresGlobal() && x in body[q].globals)
               || exists q: nat, g :: start <= q <= end && q < |body| && body[q].kind.Jal? && body[q].callee.Some?
                                      && Reaches(calls, body[q].callee.value, g) && g in directR && x in directR[g])
           && (forall q: nat :: start <= q <= end && q < |body| && body[q].StoresGlobal() ==> x !in body[q].globals)
           && (forall q: nat, g :: (start <= q <= end && q < |body| && body[q].kind.Jal? && body[q].callee.Some?
                                    && Reaches(calls, body[q].callee.value, g) && g in directW) ==> x !in directW[g])
  {
    var body, i := funcs[row.func].body, row.branch;
    TouchedInLoop(body, i, false, calls, directR, x);
    TouchedInLoop(body, i, true, calls, directW, x);
    hide IsSpin, LoopBody, Reaches, LoopTouches;
    assert x in row.waited <==> WaitsOn(LoopBody(body, i), calls, directR, directW, x);
  }

  /**
    No row for a branch when, between its target and its delay slot, there is an indirect call, or a
    call that leads to one of the five routines that reschedule.
   */
  lemma NoRowThatYields(funcs: seq<Function>, calls: Calls, directR: Effects, directW: Effects, row: Row,
                        q: nat, path: seq<Symbol>)
    requires row.func < |funcs| && ClosesLoop(funcs[row.func].body, row.branch)
    requires funcs[row.func].body[row.branch].target.value <= q <= row.branch + 1 && q < |funcs[row.func].body|
    requires var insn := funcs[row.func].body[q];
             || insn.kind.Jalr?
             || (insn.kind.Jal? && insn.callee.Some? && CallPath(calls, path) && path[0] == insn.callee.value
                 && path[|path| - 1] in {"osSendMesg", "osRecvMesg", "osJamMesg", "osYieldThread", "osStopThread"})
    ensures !Reportable(funcs, calls, directR, directW, row)
  {
    var body, i := funcs[row.func].body, row.branch;
    var loop := LoopBody(body, i);
    LoopIsTargetToDelaySlot(body, i);
    assert loop[q - body[i].target.value] == body[q];
    if !body[q].kind.Jalr? {
      CalledInLoop(body, i, path[0]);
      assert PathBetween(calls, path[0], path[|path| - 1], path);
      assert CanYield(calls, YIELD_POINTS, path[0]);
    }
  }

  /** Each register is used where the chain says, and defined by the instruction that comes next in it. */
  predicate ChainPlaces(body: seq<Insn>, i: nat, at: seq<nat>, regs: seq<Reg>)
    requires ClosesLoop(body, i)
  {
    && |at| == |regs| > 0
    && (forall k :: 0 <= k < |at| ==> body[i].target.value <= at[k] <= i + 1 && at[k] < |body|
                                      && regs[k] != "zero" && regs[k] in body[at[k]].Uses())
    && forall k :: 0 <= k < |at| - 1 ==> body[at[k + 1]].Def() == Some(regs[k])
  }

  /**
    The test of the loop that `i` closes depends, through the definitions at the positions `at` of the
    registers `regs`, on the last of these, which the loop reads before anything in it writes it and
    which it writes at `written`.  The first position is the loop's last control transfer.
   */
  predicate TestCarriesOver(body: seq<Insn>, i: nat, at: seq<nat>, regs: seq<Reg>, read: nat, written: nat)
    requires ClosesLoop(body, i)
  {
    var start := body[i].target.value;
    && ChainPlaces(body, i, at, regs)
    && body[at[0]].TransfersControl() && (forall q :: at[0] < q <= i + 1 && q < |body| ==> !body[q].TransfersControl())
    && start <= read <= i + 1 && read < |body| && regs[|regs| - 1] in body[read].Uses()
    && (forall q :: start <= q < read ==> body[q].Def() != Some(regs[|regs| - 1]))
    && start <= written <= i + 1 && written < |body| && body[written].Def() == Some(regs[|regs| - 1])
  }

  lemma LastBranchInLoop(body: seq<Insn>, i: nat, b: nat)
    requires ClosesLoop(body, i) && body[i].target.value <= b <= i + 1 && b < |body|
    requires body[b].TransfersControl() && forall q :: b < q <= i + 1 && q < |body| ==> !body[q].TransfersControl()
    ensures IsLastBranch(LoopBody(body, i), b - body[i].target.value)
  {
    LoopIsTargetToDelaySlot(body, i);
  }

  lemma FeedsInLoop(body: seq<Insn>, i: nat, p: nat, d: Reg, u: Reg)
    requires ClosesLoop(body, i) && body[i].target.value <= p <= i + 1 && p < |body|
    requires u != "zero" && body[p].Def() == Some(d) && u in body[p].Uses()
    ensures Feeds(LoopBody(body, i), d, u)
  {
    LoopIsTargetToDelaySlot(body, i);
    assert LoopBody(body, i)[p - body[i].target.value] == body[p];
  }

  lemma ChainInLoop(body: seq<Insn>, i: nat, at: seq<nat>, regs: seq<Reg>)
    requires ClosesLoop(body, i) && ChainPlaces(body, i, at, regs)
    ensures at[0] - body[i].target.value < |LoopBody(body, i)|
    ensures DependsOn(LoopBody(body, i), Tested(LoopBody(body, i)[at[0] - body[i].target.value]), regs[|regs| - 1])
  {
    LoopIsTargetToDelaySlot(body, i);
    var loop := LoopBody(body, i);
    var b := at[0] - body[i].target.value;
    assert loop[b] == body[at[0]];
    assert regs[0] in Tested(loop[b]);
    hide LoopBody, Feeds, ClosesLoop;
    forall k | 0 <= k < |regs| - 1 ensures Feeds(loop, regs[k], regs[k + 1]) {
      FeedsInLoop(body, i, at[k + 1], regs[k], regs[k + 1]);
    }
    assert ChainTo(loop, Tested(loop[b]), regs[|regs| - 1], regs);
  }

  lemma CarriedInLoop(body: seq<Insn>, i: nat, r: Reg, read: nat, written: nat)
    requires ClosesLoop(body, i) && r != "zero"
    requires body[i].target.value <= read <= i + 1 && read < |body| && r in body[read].Uses()
    requires forall q :: body[i].target.value <= q < read ==> body[q].Def() != Some(r)
    requires body[i].target.value <= written <= i + 1 && written < |body| && body[written].Def() == Some(r)
    ensures LoopCarried(LoopBody(body, i), r)
  {
    var start, loop := body[i].target.value, LoopBody(body, i);
    LoopIsTargetToDelaySlot(body, i);
    assert loop[read - start] == body[read] && loop[written - start] == body[written];
    forall j | 0 <= j < read - start ensures loop[j].Def() != Some(r) {
      assert loop[start + j - start] == body[start + j];
    }
    assert !WrittenBefore(loop, read - start, r);
  }

  lemma SpinsAreWaits(funcs: seq<Function>, calls: Calls, directR: Effects, directW: Effects, row: Row)
    requires row.func < |funcs| && ClosesLoop(funcs[row.func].body, row.branch)
    ensures Reportable(funcs, calls, directR, directW, row) ==> IsWait(LoopBody(funcs[row.func].body, row.branch))
  {
    hide IsWait, LoopBody, WaitsOn;
  }

  lemma CarriedTestIsNoWait(span: seq<Insn>, b: nat, r: Reg)
    requires IsLastBranch(span, b) && DependsOn(span, Tested(span[b]), r) && LoopCarried(span, r)
    ensures !IsWait(span)
  {
    hide DependsOn, LoopCarried, Tested;
    assert forall c: nat :: IsLastBranch(span, c) ==> c == b;
  }

  lemma AdvancingIsNoWait(body: seq<Insn>, i: nat, at: seq<nat>, regs: seq<Reg>, read: nat, written: nat)
    requires ClosesLoop(body, i) && TestCarriesOver(body, i, at, regs, read, written)
    ensures !IsWait(LoopBody(body, i))
  {
    hide LoopBody, DependsOn, LoopCarried, IsLastBranch, IsWait, Insn.Def, Insn.Uses, Insn.TransfersControl;
    LastBranchInLoop(body, i, at[0]);
    ChainInLoop(body, i, at, regs);
    CarriedInLoop(body, i, regs[|regs| - 1], read, written);
    CarriedTestIsNoWait(LoopBody(body, i), at[0] - body[i].target.value, regs[|regs| - 1]);
  }

  /**
    No row for a branch whose test carries over, wherever in the loop, its delay slot included, the
    register is written.
   */
  lemma NoRowThatAdvances(funcs: seq<Function>, calls: Calls, directR: Effects, directW: Effects, row: Row,
                          at: seq<nat>, regs: seq<Reg>, read: nat, written: nat)
    requires row.func < |funcs| && ClosesLoop(funcs[row.func].body, row.branch)
    requires TestCarriesOver(funcs[row.func].body, row.branch, at, regs, read, written)
    ensures !Reportable(funcs, calls, directR, directW, row)
  {
    hide *;
    AdvancingIsNoWait(funcs[row.func].body, row.branch, at, regs, read, written);
    SpinsAreWaits(funcs, calls, directR, directW, row);
  }

  /**
    A branch whose delay slot steps the register it tests through gets no row: the step belongs to
    the loop.
   */
  lemma StepInDelaySlotIsSeen(funcs: seq<Function>, calls: Calls, directR: Effects, directW: Effects, row: Row,
                              r: Reg, read: nat)
    requires row.func < |funcs| && ClosesLoop(funcs[row.func].body, row.branch)
    requires var body, i := funcs[row.func].body, row.branch;
             var start := body[i].target.value;
             && i + 1 < |body| && body[i].IsBranch() && !body[i + 1].TransfersControl() && body[i + 1].Def() == Some(r)
             && start <= read < i && r != "zero" && r in body[read].Uses() && body[read].Def().Some?
             && body[read].Def().value != "zero" && body[read].Def().value in body[i].Uses()
             && forall q :: start <= q < read ==> body[q].Def() != Some(r)
    ensures !Reportable(funcs, calls, directR, directW, row)
  {
    var body, i := funcs[row.func].body, row.branch;
    NoRowThatAdvances(funcs, calls, directR, directW, row, [i, read], [body[read].Def().value, r], read, i + 1);
  }

  // ----- Exactly the rows there are -----

  lemma PlaceInLoop(body: seq<Insn>, i: nat, p: nat)
    requires ClosesLoop(body, i) && p < |LoopBody(body, i)|
    ensures body[i].target.value + p <= i + 1 && body[i].target.value + p < |body|
    ensures LoopBody(body, i)[p] == body[body[i].target.value + p]
  {
    LoopIsTargetToDelaySlot(body, i);
  }

  lemma FeedPlace(body: seq<Insn>, i: nat, d: Reg, u: Reg) returns (p: nat)
    requires ClosesLoop(body, i) && Feeds(LoopBody(body, i), d, u)
    ensures body[i].target.value <= p <= i + 1 && p < |body| && u != "zero" && u in body[p].Uses() && body[p].Def() == Some(d)
  {
    var loop := LoopBody(body, i);
    p :| 0 <= p < |loop| && loop[p].Def() == Some(d) && u in loop[p].Uses();
    PlaceInLoop(body, i, p);
    p := body[i].target.value + p;
  }

  lemma ChainStarts(body: seq<Insn>, i: nat, at: seq<nat>, regs: seq<Reg>)
    requires ClosesLoop(body, i) && ChainPlaces(body, i, at, regs)
    ensures |at| == |regs| > 0
  {
  }

  lemma ChainSnoc(body: seq<Insn>, i: nat, at: seq<nat>, regs: seq<Reg>, p: nat, r: Reg)
    requires ClosesLoop(body, i) && ChainPlaces(body, i, at, regs)
    requires body[i].target.value <= p <= i + 1 && p < |body| && r != "zero" && r in body[p].Uses()
    requires body[p].Def() == Some(regs[|regs| - 1])
    ensures ChainPlaces(body, i, at + [p], regs + [r])
  {
    hide Insn.Def, Insn.Uses, ClosesLoop;
  }

  lemma ChainOne(body: seq<Insn>, i: nat, b: nat, r: Reg)
    requires ClosesLoop(body, i) && b < |LoopBody(body, i)| && r in Tested(LoopBody(body, i)[b])
    ensures ChainPlaces(body, i, [body[i].target.value + b], [r])
  {
    PlaceInLoop(body, i, b);
    hide LoopBody;
  }

  lemma LastLink(span: seq<Insn>, regs: seq<Reg>)
    requires IsChain(span, regs) && |regs| > 1
    ensures var n := |regs| - 1;
            Feeds(span, regs[n - 1], regs[n]) && IsChain(span, regs[..n]) && regs[..n] + [regs[n]] == regs
  {
    hide Feeds;
    var n := |regs| - 1;
    assert Feeds(span, regs[n - 1], regs[n - 1 + 1]);
  }

  /** The instructions a chain of definitions goes through, from the test at `b`. */
  lemma {:induction false} PlacesOf(body: seq<Insn>, i: nat, b: nat, regs: seq<Reg>) returns (at: seq<nat>)
    requires ClosesLoop(body, i) && b < |LoopBody(body, i)| && |regs| > 0
    requires IsChain(LoopBody(body, i), regs) && regs[0] in Tested(LoopBody(body, i)[b])
    ensures ChainPlaces(body, i, at, regs) && |at| > 0 && at[0] == body[i].target.value + b
    decreases |regs|
  {
    hide LoopBody, Feeds, Tested, ChainPlaces, IsChain;
    var n := |regs| - 1;
    if n == 0 {
      at := [body[i].target.value + b];
      ChainOne(body, i, b, regs[0]);
      assert [regs[0]] == regs;
    } else {
      LastLink(LoopBody(body, i), regs);
      var before := PlacesOf(body, i, b, regs[..n]);
      var p := FeedPlace(body, i, regs[n - 1], regs[n]);
      ChainStarts(body, i, before, regs[..n]);
      ChainSnoc(body, i, before, regs[..n], p, regs[n]);
      at := before + [p];
    }
  }

  /** A control transfer, the last of the loop, that tests some register. */
  predicate TestsAt(body: seq<Insn>, i: nat, b: nat)
    requires ClosesLoop(body, i)
  {
    && body[i].target.value <= b <= i + 1 && b < |body| && body[b].TransfersControl()
    && (forall q :: b < q <= i + 1 && q < |body| ==> !body[q].TransfersControl())
    && exists u :: u in body[b].Uses() && u != "zero"
  }

  lemma TestPlace(body: seq<Insn>, i: nat, b: nat)
    requires ClosesLoop(body, i) && b < |LoopBody(body, i)|
    ensures TestsAt(body, i, body[i].target.value + b) <==> IsLastBranch(LoopBody(body, i), b) && Tested(LoopBody(body, i)[b]) != {}
  {
    var start, loop := body[i].target.value, LoopBody(body, i);
    LoopIsTargetToDelaySlot(body, i);
    assert forall k :: 0 <= k < |loop| ==> loop[k] == body[start + k];
    assert forall q: nat :: start <= q <= i + 1 && q < |body| ==> loop[q - start] == body[q];
    hide LoopBody, Insn.TransfersControl, Insn.Uses;
    if exists u :: u in loop[b].Uses() && u != "zero" {
      var u :| u in loop[b].Uses() && u != "zero";
      assert u in Tested(loop[b]);
    }
  }

  lemma ReadPlace(body: seq<Insn>, i: nat, r: Reg) returns (read: nat)
    requires ClosesLoop(body, i) && ReadBeforeWritten(LoopBody(body, i), |LoopBody(body, i)|, r)
    ensures body[i].target.value <= read <= i + 1 && read < |body| && r in body[read].Uses()
    ensures forall q :: body[i].target.value <= q < read ==> body[q].Def() != Some(r)
  {
    var start, loop := body[i].target.value, LoopBody(body, i);
    var first :| 0 <= first < |loop| && r in loop[first].Uses() && !WrittenBefore(loop, first, r);
    hide LoopBody, Insn.Def, Insn.Uses;
    read := start + first;
    PlaceInLoop(body, i, first);
    forall q | start <= q < read ensures body[q].Def() != Some(r) {
      PlaceInLoop(body, i, q - start);
    }
  }

  lemma WrittenPlace(body: seq<Insn>, i: nat, r: Reg) returns (written: nat)
    requires ClosesLoop(body, i) && WrittenBefore(LoopBody(body, i), |LoopBody(body, i)|, r)
    ensures body[i].target.value <= written <= i + 1 && written < |body| && body[written].Def() == Some(r)
  {
    var loop := LoopBody(body, i);
    var w :| 0 <= w < |loop| && loop[w].Def() == Some(r);
    hide LoopBody, Insn.Def;
    written := body[i].target.value + w;
    PlaceInLoop(body, i, w);
  }

  /** Where the loop first reads a carried register, and where it writes it. */
  lemma CarriedPlace(body: seq<Insn>, i: nat, r: Reg) returns (read: nat, written: nat)
    requires ClosesLoop(body, i) && LoopCarried(LoopBody(body, i), r)
    ensures body[i].target.value <= read <= i + 1 && read < |body| && r in body[read].Uses()
    ensures forall q :: body[i].target.value <= q < read ==> body[q].Def() != Some(r)
    ensures body[i].target.value <= written <= i + 1 && written < |body| && body[written].Def() == Some(r)
  {
    hide LoopBody, ReadBeforeWritten, WrittenBefore, Insn.Def, Insn.Uses;
    read := ReadPlace(body, i, r);
    written := WrittenPlace(body, i, r);
  }

  /** A carried register that the test depends on, by place. */
  lemma CarriedPlaces(body: seq<Insn>, i: nat, b: nat, r: Reg)
    returns (at: seq<nat>, regs: seq<Reg>, read: nat, written: nat)
    requires ClosesLoop(body, i) && TestsAt(body, i, body[i].target.value + b) && b < |LoopBody(body, i)|
    requires DependsOn(LoopBody(body, i), Tested(LoopBody(body, i)[b]), r) && LoopCarried(LoopBody(body, i), r)
    ensures TestCarriesOver(body, i, at, regs, read, written)
  {
    hide LoopBody, LoopCarried, Tested, Insn.Def, Insn.Uses, Insn.TransfersControl, Feeds;
    regs :| ChainTo(LoopBody(body, i), Tested(LoopBody(body, i)[b]), r, regs);
    at := PlacesOf(body, i, b, regs);
    read, written := CarriedPlace(body, i, r);
  }

  /** The test of the loop carries over, somehow. */
  ghost predicate Advances(body: seq<Insn>, i: nat)
    requires ClosesLoop(body, i)
  {
    exists at, regs, read, written :: TestCarriesOver(body, i, at, regs, read, written)
  }

  lemma AdvancingLoop(body: seq<Insn>, i: nat)
    requires ClosesLoop(body, i) && Advances(body, i)
    ensures !IsWait(LoopBody(body, i))
  {
    hide IsWait, TestCarriesOver;
    var at, regs, read, written :| TestCarriesOver(body, i, at, regs, read, written);
    AdvancingIsNoWait(body, i, at, regs, read, written);
  }

  lemma WaitingLoop(body: seq<Insn>, i: nat, b: nat)
    requires ClosesLoop(body, i) && TestsAt(body, i, b) && !Advances(body, i)
    ensures IsWait(LoopBody(body, i))
  {
    var start, loop := body[i].target.value, LoopBody(body, i);
    LoopIsTargetToDelaySlot(body, i);
    assert start <= b && b - start < |loop|;
    hide LoopBody, ClosesLoop, TestsAt, TestCarriesOver, Tested, DependsOn, LoopCarried, IsLastBranch;
    var d: nat := b - start;
    assert start + d == b;
    TestPlace(body, i, d);
    forall r | DependsOn(loop, Tested(loop[d]), r) ensures !LoopCarried(loop, r) {
      if LoopCarried(loop, r) {
        var at, regs, read, written := CarriedPlaces(body, i, d, r);
      }
    }
    assert IsWaitAt(loop, d);
  }

  /** The loop is a wait exactly when it ends in a test, and no test of it carries over. */
  lemma WaitPlacesIff(body: seq<Insn>, i: nat)
    requires ClosesLoop(body, i)
    ensures IsWait(LoopBody(body, i)) <==> (exists b: nat :: TestsAt(body, i, b)) && !Advances(body, i)
  {
    hide TestsAt, Advances, LoopBody, Tested, DependsOn, LoopCarried;
    var loop := LoopBody(body, i);
    if IsWait(loop) {
      var c: nat :| IsLastBranch(loop, c) && IsWaitAt(loop, c);
      TestPlace(body, i, c);
      assert TestsAt(body, i, body[i].target.value + c);
      if Advances(body, i) {
        AdvancingLoop(body, i);
      }
    } else if b: nat :| TestsAt(body, i, b) {
      if !Advances(body, i) {
        WaitingLoop(body, i, b);
      }
    }
  }

  /** What the loop stores, or looks at, itself or through its calls, by place. */
  ghost predicate TouchesByPlace(body: seq<Insn>, i: nat, store: bool, calls: Calls, direct: Effects, x: Symbol)
    requires ClosesLoop(body, i)
  {
    var start, end := body[i].target.value, i + 1;
    || (exists q: nat :: start <= q <= end && q < |body| && body[q].StoresGlobal() == store && x in body[q].globals)
    || exists q: nat, g :: start <= q <= end && q < |body| && body[q].kind.Jal? && body[q].callee.Some?
                           && Reaches(calls, body[q].callee.value, g) && g in direct && x in direct[g]
  }

  /** Something in the loop looks at it and nothing in it stores it, by place. */
  ghost predicate WaitsByPlace(body: seq<Insn>, i: nat, calls: Calls, directR: Effects, directW: Effects, x: Symbol)
    requires ClosesLoop(body, i)
  {
    TouchesByPlace(body, i, false, calls, directR, x) && !TouchesByPlace(body, i, true, calls, directW, x)
  }

  lemma WaitPlace(body: seq<Insn>, i: nat, calls: Calls, directR: Effects, directW: Effects, x: Symbol)
    requires ClosesLoop(body, i)
    ensures WaitsOn(LoopBody(body, i), calls, directR, directW, x) <==> WaitsByPlace(body, i, calls, directR, directW, x)
  {
    TouchedInLoop(body, i, false, calls, directR, x);
    TouchedInLoop(body, i, true, calls, directW, x);
    hide Reaches, LoopBody, LoopTouches;
  }

  /** An indirect call in the loop, or one that leads to a routine that reschedules, by place. */
  ghost predicate MayYieldByPlace(body: seq<Insn>, i: nat, calls: Calls)
    requires ClosesLoop(body, i)
  {
    exists q: nat :: body[i].target.value <= q <= i + 1 && q < |body|
                     && (body[q].kind.Jalr?
                         || (body[q].kind.Jal? && body[q].callee.Some? && CanYield(calls, YIELD_POINTS, body[q].callee.value)))
  }

  lemma YieldPlacesIff(body: seq<Insn>, i: nat, calls: Calls)
    requires ClosesLoop(body, i)
    ensures MayYieldByPlace(body, i, calls)
       <==> HasIndirectCall(LoopBody(body, i)) || exists c :: c in Callees(LoopBody(body, i)) && CanYield(calls, YIELD_POINTS, c)
  {
    var start, loop := body[i].target.value, LoopBody(body, i);
    LoopIsTargetToDelaySlot(body, i);
    assert forall q: nat :: start <= q <= i + 1 && q < |body| ==> loop[q - start] == body[q];
    hide LoopBody, CanYield;
    if k :| 0 <= k < |loop| && loop[k].kind.Jalr? {
      assert loop[start + k - start] == body[start + k];
    }
    if c :| c in Callees(loop) && CanYield(calls, YIELD_POINTS, c) {
      CalledInLoop(body, i, c);
    }
    if MayYieldByPlace(body, i, calls) {
      var q: nat :| start <= q <= i + 1 && q < |body|
                    && (body[q].kind.Jalr?
                        || (body[q].kind.Jal? && body[q].callee.Some? && CanYield(calls, YIELD_POINTS, body[q].callee.value)));
      assert loop[q - start] == body[q];
      if !body[q].kind.Jalr? {
        CalledInLoop(body, i, body[q].callee.value);
      }
    }
  }

  lemma SpinPlacesIff(body: seq<Insn>, i: nat, calls: Calls, directR: Effects, directW: Effects)
    requires ClosesLoop(body, i)
    ensures IsSpin(LoopBody(body, i), calls, directR, directW)
       <==> && !MayYieldByPlace(body, i, calls) && (exists b: nat :: TestsAt(body, i, b)) && !Advances(body, i)
            && exists x :: WaitsByPlace(body, i, calls, directR, directW, x)
  {
    WaitPlacesIff(body, i);
    YieldPlacesIff(body, i, calls);
    forall x ensures WaitsOn(LoopBody(body, i), calls, directR, directW, x) <==> WaitsByPlace(body, i, calls, directR, directW, x) {
      WaitPlace(body, i, calls, directR, directW, x);
    }
    hide WaitsOn, LoopBody, WaitsByPlace, MayYieldByPlace, Advances, TestsAt, IsWait, HasIndirectCall, CanYield, Callees;
  }

  /**
    Exactly the rows there are, in terms of the instructions of the function they are in: a branch to
    an earlier instruction, with nothing from there to its delay slot that may yield, a test that does
    not carry over, and some global looked at and not stored; naming those globals and no others.
   */
  lemma RowIff(funcs: seq<Function>, calls: Calls, directR: Effects, directW: Effects, row: Row)
    ensures Reportable(funcs, calls, directR, directW, row)
       <==> && row.func < |funcs|
            && var body, i := funcs[row.func].body, row.branch;
            && i < |body| && body[i].target.Some? && body[i].target.value < i
            && !MayYieldByPlace(body, i, calls)
            && (exists b: nat :: TestsAt(body, i, b)) && !Advances(body, i)
            && row.waited != {}
            && forall x :: x in row.waited <==> WaitsByPlace(body, i, calls, directR, directW, x)
  {
    if row.func < |funcs| && ClosesLoop(funcs[row.func].body, row.branch) {
      var body, i := funcs[row.func].body, row.branch;
      SpinPlacesIff(body, i, calls, directR, directW);
      forall x ensures WaitsOn(LoopBody(body, i), calls, directR, directW, x) <==> WaitsByPlace(body, i, calls, directR, directW, x) {
        WaitPlace(body, i, calls, directR, directW, x);
      }
      hide WaitsOn, LoopBody, WaitsByPlace, MayYieldByPlace, Advances, TestsAt, IsSpin;
    }
  }

  // ----- Two loops, and the rows they get in every program -----

  lemma CounterWaitsOnLimit(calls: Calls, directR: Effects, directW: Effects, x: Symbol)
    ensures WaitsOn(CountInMemory(), calls, directR, directW, x) <==> x == "limit"
  {
    var loop := CountInMemory();
    assert Callees(loop) == {};
    assert "counter" in loop[4].globals && loop[4].StoresGlobal() && "limit" in loop[2].globals && !loop[2].StoresGlobal();
    assert forall i :: 0 <= i < |loop| && loop[i].StoresGlobal() ==> i == 4;
    assert Mentions(loop, true, "counter") && Mentions(loop, false, "limit");
    assert Mentions(loop, true, x) ==> x == "counter";
    assert Mentions(loop, false, x) ==> x == "counter" || x == "limit";
  }

  /**
    The loop that counts in memory, as a function of any program, gets one row, which names the limit
    and not the counter that its delay slot stores.
   */
  lemma CounterRow(funcs: seq<Function>, calls: Calls, directR: Effects, directW: Effects, row: Row)
    requires row.func < |funcs| && funcs[row.func].body == CountInMemory()
    ensures Reportable(funcs, calls, directR, directW, row) <==> row.branch == 3 && row.waited == {"limit"}
  {
    var loop := CountInMemory();
    assert ClosesLoop(loop, row.branch) <==> row.branch == 3;
    if row.branch == 3 {
      assert LoopBody(loop, 3) == loop;
      CounterIsSpin(calls, directR, directW);
      forall x ensures WaitsOn(loop, calls, directR, directW, x) <==> x == "limit" {
        CounterWaitsOnLimit(calls, directR, directW, x);
      }
      hide IsSpin, WaitsOn, CountInMemory;
    }
  }

  /** Follows a list, stepping the pointer in the delay slot. */
  function PointerWalk(): seq<Insn> {
    [Insn(Plain, ["v0", "a0"], ["list"], None, None),
     Insn(Branch, ["v0", "zero"], [], None, Some(0)),
     Insn(Plain, ["a0", "a0"], [], None, None)]
  }

  /** The list walk gets no row in any program. */
  lemma PointerWalkHasNoRow(funcs: seq<Function>, calls: Calls, directR: Effects, directW: Effects, row: Row)
    requires row.func < |funcs| && funcs[row.func].body == PointerWalk()
    ensures !Reportable(funcs, calls, directR, directW, row)
  {
    var body := PointerWalk();
    assert body[0].Uses() == ["a0"] && body[0].Def() == Some("v0") && body[2].Def() == Some("a0");
    assert body[1].Uses() == ["v0", "zero"];
    if ClosesLoop(body, row.branch) {
      assert row.branch == 1;
      StepInDelaySlotIsSeen(funcs, calls, directR, directW, row, "a0", 0);
    }
  }
}
