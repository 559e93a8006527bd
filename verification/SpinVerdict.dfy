/**
  What a report is worth, in terms of what the scan itself computes: the callees taken to change
  nothing are those whose propagated writes are empty, and the calls are those on the map.
 */
module SpinVerdict {
  import opened Wrappers
  import opened MipsBody
  import opened CallGraph
  import opened SpinLoops
  import opened SpinMachine
  import opened SpinExact
  import opened SpinReport

  /** The callees of the loop that the scan knows, and knows to write no global. */
  function QuietCallees(span: seq<Insn>, writtenBy: Effects): set<Symbol> {
    set f | f in Callees(span) && f in writtenBy && writtenBy[f] == {}
  }

  /**
    No store in the body, and every call goes to a known function from which nothing that writes a
    global can be reached.
   */
  ghost predicate WritesNothing(span: seq<Insn>, calls: Calls, directW: Effects) {
    forall i :: 0 <= i < |span| ==>
                  && !span[i].StoresGlobal()
                  && (span[i].kind.Jal? ==> span[i].callee.Some? && span[i].callee.value in calls
                                            && forall g, x :: g in directW && Reaches(calls, span[i].callee.value, g) ==> x !in directW[g])
  }

  /** Empty propagated writes are what they seem, for a function that cannot yield. */
  lemma QuietIsWritesNothing(calls: Calls, yielding: set<Symbol>, readBy: Effects, writtenBy: Effects,
                             directR: Effects, directW: Effects, f: Symbol)
    requires Propagated(calls, yielding, readBy, writtenBy, directR, directW) && f in calls && f !in yielding
    ensures writtenBy[f] == {} <==> forall g, x :: g in directW && Reaches(calls, f, g) ==> x !in directW[g]
  {
    forall x ensures x in writtenBy[f] <==> exists g :: g in directW && Reaches(calls, f, g) && x in directW[g] {
      QuietReachIsReach(calls, YIELD_POINTS, yielding, directW, f, x);
    }
    assert writtenBy[f] == {} <==> forall x :: x !in writtenBy[f];
    if writtenBy[f] == {} {
      forall g, x | g in directW && Reaches(calls, f, g) ensures x !in directW[g] {
        assert x !in writtenBy[f];
      }
    }
  }

  lemma ChangesNothingIff(span: seq<Insn>, start: nat, b: nat, calls: Calls, yielding: set<Symbol>,
                          readBy: Effects, writtenBy: Effects, directR: Effects, directW: Effects)
    requires Propagated(calls, yielding, readBy, writtenBy, directR, directW)
    requires !HasIndirectCall(span) && forall f :: f in Callees(span) ==> f !in yielding
    ensures ChangesNothing(Code(span, start, b, QuietCallees(span, writtenBy))) <==> WritesNothing(span, calls, directW)
  {
    forall i | 0 <= i < |span|
      ensures !MayChangeWorld(span[i], QuietCallees(span, writtenBy)) <==>
              && !span[i].StoresGlobal()
              && (span[i].kind.Jal? ==> span[i].callee.Some? && span[i].callee.value in calls
                                        && forall g, x :: g in directW && Reaches(calls, span[i].callee.value, g) ==> x !in directW[g])
    {
      if span[i].kind.Jal? && span[i].callee.Some? {
        var f := span[i].callee.value;
        assert f in Callees(span);
        if f in calls {
          QuietIsWritesNothing(calls, yielding, readBy, writtenBy, directR, directW, f);
        }
      }
    }
  }

  /**
    Exactly when a straight-line report is right: with the callees of empty propagated writes
    taken to change nothing, the reported loop waits for others if and only if it stores nothing
    and calls only known functions that lead to no write, or its test reads nothing it writes.
   */
  lemma ReportIsRightIff(span: seq<Insn>, start: nat, b: nat, calls: Calls, yielding: set<Symbol>,
                         readBy: Effects, writtenBy: Effects, directR: Effects, directW: Effects)
    requires Propagated(calls, yielding, readBy, writtenBy, directR, directW)
    requires IsSpin(span, calls, directR, directW) && IsLastBranch(span, b)
    requires StraightLine(Code(span, start, b, QuietCallees(span, writtenBy)))
    ensures WaitsForOthers(Code(span, start, b, QuietCallees(span, writtenBy)))
       <==> WritesNothing(span, calls, directW) || TestsNothingWritten(Code(span, start, b, QuietCallees(span, writtenBy)), b)
  {
    hide WaitsForOthers, IsWait, WaitsOn, StraightLine, QuietCallees, TestsNothingWritten, WritesNothing;
    ChangesNothingIff(span, start, b, calls, yielding, readBy, writtenBy, directR, directW);
    StraightWaitIff(Code(span, start, b, QuietCallees(span, writtenBy)));
  }

  /** The functions whose bodies make an indirect call. */
  function IndirectCallers(funcs: seq<Function>): set<Symbol> {
    set n | 0 <= n < |funcs| && HasIndirectCall(BodyOf(funcs, funcs[n].name)) :: funcs[n].name
  }

  /**
    Exactly when a reported loop cannot yield: whatever the indirect calls of the program turn out
    to call, if and only if no callee of the loop leads to a function that makes one.
   */
  lemma ReportCannotYieldIff(funcs: seq<Function>, span: seq<Insn>, calls: Calls, directR: Effects, directW: Effects)
    requires Describes(funcs, calls, directR, directW) && IsSpin(span, calls, directR, directW)
    ensures (forall made, f :: Completes(calls, IndirectCallers(funcs), made) && f in Callees(span) ==> !CanYield(made, YIELD_POINTS, f))
       <==> forall f, g :: f in Callees(span) && g in IndirectCallers(funcs) ==> !Reaches(calls, f, g)
  {
    var indirect := IndirectCallers(funcs);
    assert indirect <= calls.Keys by {
      forall f | f in indirect ensures f in calls {
        assert Named(funcs, f);
      }
    }
    assert "osSendMesg" in YIELD_POINTS;
    hide IndirectCallers, CanYield, Describes, Callees;
    forall f | f in Callees(span)
      ensures (forall made :: Completes(calls, indirect, made) ==> !CanYield(made, YIELD_POINTS, f))
         <==> forall g :: g in indirect ==> !Reaches(calls, f, g)
    {
      NeverYieldsIff(calls, YIELD_POINTS, indirect, f);
    }
  }
}
