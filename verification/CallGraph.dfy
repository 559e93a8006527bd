/**
  The call graph of the disassembly: which functions can reach a yield point, and which
  globals a function touches through callees that cannot.  Both are least fixpoints grown
  in place by `while changed` loops; both are proved equal to a statement about call paths.
 */
module CallGraph {
  import opened MipsBody

  type Calls = map<Symbol, set<Symbol>>
  type Effects = map<Symbol, set<Symbol>>

  /** The runtime's only rescheduling points. */
  const YIELD_POINTS: set<Symbol> :=
    {"osSendMesg", "osRecvMesg", "osJamMesg", "osYieldThread", "osStopThread"}

  // ----- Call paths -----

  ghost predicate CallPath(calls: Calls, path: seq<Symbol>) {
    |path| > 0 && forall i :: 0 <= i < |path| - 1 ==> path[i] in calls && path[i + 1] in calls[path[i]]
  }

  ghost predicate PathBetween(calls: Calls, f: Symbol, g: Symbol, path: seq<Symbol>) {
    CallPath(calls, path) && path[0] == f && path[|path| - 1] == g
  }

  ghost predicate Reaches(calls: Calls, f: Symbol, g: Symbol) {
    exists path :: PathBetween(calls, f, g, path)
  }

  ghost predicate CanYield(calls: Calls, points: set<Symbol>, f: Symbol) {
    exists y :: y in points && Reaches(calls, f, y)
  }

  lemma ReachesSelf(calls: Calls, f: Symbol)
    ensures Reaches(calls, f, f)
  {
    assert PathBetween(calls, f, f, [f]);
  }

  lemma ReachesStep(calls: Calls, f: Symbol, t: Symbol, g: Symbol)
    requires f in calls && t in calls[f] && Reaches(calls, t, g)
    ensures Reaches(calls, f, g)
  {
    var path :| PathBetween(calls, t, g, path);
    assert PathBetween(calls, f, g, [f] + path);
  }

  // ----- Who can yield -----

  /** Whoever calls a member is a member. */
  ghost predicate YieldClosed(calls: Calls, yielding: set<Symbol>) {
    forall f :: f in calls && calls[f] * yielding != {} ==> f in yielding
  }

  ghost predicate AllCanYield(calls: Calls, points: set<Symbol>, yielding: set<Symbol>) {
    forall f :: f in yielding ==> CanYield(calls, points, f)
  }

  /** One pass over the call map, adding each function that calls a member. */
  method YieldPass(calls: Calls, ghost points: set<Symbol>, order: seq<Symbol>, before: set<Symbol>)
    returns (yielding: set<Symbol>, changed: bool)
    requires forall f :: f in order <==> f in calls
    requires AllCanYield(calls, points, before)
    ensures before <= yielding
    ensures AllCanYield(calls, points, yielding)
    ensures changed ==> calls.Keys - yielding < calls.Keys - before
    ensures !changed ==> yielding == before && YieldClosed(calls, yielding)
  {
    yielding, changed := before, false;
    for i := 0 to |order|
      invariant before <= yielding
      invariant !changed ==> yielding == before
      invariant changed ==> calls.Keys - yielding < calls.Keys - before
      invariant AllCanYield(calls, points, yielding)
      invariant forall k :: 0 <= k < i && calls[order[k]] * before != {} ==> order[k] in yielding
    {
      var f := order[i];
      if f !in yielding && calls[f] * yielding != {} {
        ghost var t :| t in calls[f] * yielding;
        ghost var y :| y in points && Reaches(calls, t, y);
        ReachesStep(calls, f, t, y);
        assert f in calls.Keys - before;
        yielding := yielding + {f};
        changed := true;
      }
    }
  }

  lemma PointsCanYield(calls: Calls, points: set<Symbol>)
    ensures AllCanYield(calls, points, points)
  {
    forall y | y in points ensures CanYield(calls, points, y) {
      ReachesSelf(calls, y);
    }
  }

  lemma {:induction false} YieldsBackwards(calls: Calls, yielding: set<Symbol>, path: seq<Symbol>, k: nat)
    requires CallPath(calls, path) && path[|path| - 1] in yielding && k < |path|
    requires YieldClosed(calls, yielding)
    ensures path[k] in yielding
    decreases |path| - k
  {
    if k < |path| - 1 {
      YieldsBackwards(calls, yielding, path, k + 1);
      assert path[k + 1] in calls[path[k]] * yielding;
    }
  }

  lemma YieldComplete(calls: Calls, points: set<Symbol>, yielding: set<Symbol>)
    requires points <= yielding && YieldClosed(calls, yielding)
    ensures forall f :: CanYield(calls, points, f) ==> f in yielding
  {
    forall f | CanYield(calls, points, f) ensures f in yielding {
      var y :| y in points && Reaches(calls, f, y);
      var path :| PathBetween(calls, f, y, path);
      YieldsBackwards(calls, yielding, path, 0);
    }
  }

  method YieldSet(calls: Calls, points: set<Symbol>, order: seq<Symbol>) returns (yielding: set<Symbol>)
    requires forall f :: f in order <==> f in calls
    ensures forall f :: f in yielding <==> CanYield(calls, points, f)
  {
    yielding := points;
    PointsCanYield(calls, points);
    var changed := true;
    while changed
      invariant points <= yielding
      invariant AllCanYield(calls, points, yielding)
      invariant !changed ==> YieldClosed(calls, yielding)
      decreases calls.Keys - yielding, changed
    {
      yielding, changed := YieldPass(calls, points, order, yielding);
    }
    YieldComplete(calls, points, yielding);
  }

  // ----- What is touched through calls that cannot yield -----

  /** `f` calls `t`, whose body is known and which cannot yield. */
  predicate QuietCall(calls: Calls, yielding: set<Symbol>, f: Symbol, t: Symbol) {
    f in calls && t in calls[f] && t !in yielding && t in calls
  }

  ghost predicate QuietPath(calls: Calls, yielding: set<Symbol>, path: seq<Symbol>) {
    |path| > 0 && forall i :: 0 <= i < |path| - 1 ==> QuietCall(calls, yielding, path[i], path[i + 1])
  }

  ghost predicate TouchedAlong(calls: Calls, yielding: set<Symbol>, direct: Effects, f: Symbol, x: Symbol,
                               path: seq<Symbol>) {
    && QuietPath(calls, yielding, path) && path[0] == f
    && path[|path| - 1] in direct && x in direct[path[|path| - 1]]
  }

  /** `x` is touched by `f` itself or at the end of some chain of quiet calls from it. */
  ghost predicate Touches(calls: Calls, yielding: set<Symbol>, direct: Effects, f: Symbol, x: Symbol) {
    exists path :: TouchedAlong(calls, yielding, direct, f, x, path)
  }

  ghost predicate Justified(calls: Calls, yielding: set<Symbol>, direct: Effects, eff: Effects) {
    && eff.Keys == calls.Keys
    && (forall f :: f in direct ==> f in eff && direct[f] <= eff[f])
    && forall f, x :: f in eff && x in eff[f] ==> Touches(calls, yielding, direct, f, x)
  }

  ghost predicate ClosedAt(calls: Calls, yielding: set<Symbol>, eff: Effects, f: Symbol)
    requires eff.Keys == calls.Keys
  {
    forall t :: QuietCall(calls, yielding, f, t) ==> eff[t] <= eff[f]
  }

  ghost predicate QuietClosed(calls: Calls, yielding: set<Symbol>, eff: Effects)
    requires eff.Keys == calls.Keys
  {
    forall f :: f in calls ==> ClosedAt(calls, yielding, eff, f)
  }

  /** The state of `eff` as a set of facts, which only ever grows. */
  ghost function Facts(eff: Effects): set<(Symbol, Symbol)> {
    set f, x | f in eff && x in eff[f] :: (f, x)
  }

  ghost function AllFacts(direct: Effects): set<(Symbol, Symbol)> {
    set f, g, x | f in direct && g in direct && x in direct[g] :: (f, x)
  }

  lemma FactsBounded(calls: Calls, yielding: set<Symbol>, direct: Effects, eff: Effects)
    requires direct.Keys == calls.Keys && Justified(calls, yielding, direct, eff)
    ensures Facts(eff) <= AllFacts(direct)
  {
    forall f, x | f in eff && x in eff[f] ensures (f, x) in AllFacts(direct) {
      var path :| TouchedAlong(calls, yielding, direct, f, x, path);
    }
  }

  lemma AbsorbIsJustified(calls: Calls, yielding: set<Symbol>, direct: Effects, eff: Effects, f: Symbol, t: Symbol)
    requires Justified(calls, yielding, direct, eff) && QuietCall(calls, yielding, f, t)
    ensures Justified(calls, yielding, direct, eff[f := eff[f] + eff[t]])
  {
    forall y | y in eff[t] ensures Touches(calls, yielding, direct, f, y) {
      var path :| TouchedAlong(calls, yielding, direct, t, y, path);
      assert TouchedAlong(calls, yielding, direct, f, y, [f] + path);
    }
    hide Touches, QuietCall;
  }

  lemma FactsGrow(eff: Effects, f: Symbol, extra: set<Symbol>, x: Symbol)
    requires f in eff && x in extra && x !in eff[f]
    ensures Facts(eff) < Facts(eff[f := eff[f] + extra])
  {
    var more := eff[f := eff[f] + extra];
    assert (f, x) in Facts(more) && (f, x) !in Facts(eff);
  }

  /** eff[f] |= eff[t], reporting whether anything was new. */
  method Absorb(calls: Calls, ghost yielding: set<Symbol>, ghost direct: Effects, eff: Effects, f: Symbol, t: Symbol)
    returns (more: Effects, grew: bool)
    requires Justified(calls, yielding, direct, eff) && QuietCall(calls, yielding, f, t)
    ensures Justified(calls, yielding, direct, more)
    ensures Facts(eff) <= Facts(more)
    ensures grew ==> Facts(eff) < Facts(more)
    ensures !grew ==> more == eff && eff[t] <= eff[f]
  {
    more, grew := eff, false;
    if !(eff[t] <= eff[f]) {
      more := eff[f := eff[f] + eff[t]];
      grew := true;
      AbsorbIsJustified(calls, yielding, direct, eff, f, t);
      ghost var x :| x in eff[t] && x !in eff[f];
      FactsGrow(eff, f, eff[t], x);
    }
  }

  /** f absorbs every callee it quietly calls. */
  method AbsorbCallees(calls: Calls, yielding: set<Symbol>, ghost directR: Effects, ghost directW: Effects,
                       reads0: Effects, writes0: Effects, f: Symbol)
    returns (readBy: Effects, writtenBy: Effects, changed: bool)
    requires f in calls
    requires Justified(calls, yielding, directR, reads0) && Justified(calls, yielding, directW, writes0)
    ensures Justified(calls, yielding, directR, readBy) && Justified(calls, yielding, directW, writtenBy)
    ensures Facts(reads0) <= Facts(readBy) && Facts(writes0) <= Facts(writtenBy)
    ensures changed ==> Facts(reads0) < Facts(readBy) || Facts(writes0) < Facts(writtenBy)
    ensures !changed ==> readBy == reads0 && writtenBy == writes0
                         && ClosedAt(calls, yielding, reads0, f) && ClosedAt(calls, yielding, writes0, f)
  {
    readBy, writtenBy, changed := reads0, writes0, false;
    var left := calls[f];
    while left != {}
      invariant left <= calls[f]
      invariant Justified(calls, yielding, directR, readBy) && Justified(calls, yielding, directW, writtenBy)
      invariant Facts(reads0) <= Facts(readBy) && Facts(writes0) <= Facts(writtenBy)
      invariant changed ==> Facts(reads0) < Facts(readBy) || Facts(writes0) < Facts(writtenBy)
      invariant !changed ==> readBy == reads0 && writtenBy == writes0
      invariant !changed ==> forall t :: QuietCall(calls, yielding, f, t) && t !in left ==> reads0[t] <= reads0[f]
      invariant !changed ==> forall t :: QuietCall(calls, yielding, f, t) && t !in left ==> writes0[t] <= writes0[f]
      decreases left
    {
      var t :| t in left;
      left := left - {t};
      if t !in yielding && t in readBy {
        var grewR, grewW;
        readBy, grewR := Absorb(calls, yielding, directR, readBy, f, t);
        writtenBy, grewW := Absorb(calls, yielding, directW, writtenBy, f, t);
        changed := changed || grewR || grewW;
      }
    }
  }

  /** One sweep over every function. */
  method Sweep(calls: Calls, order: seq<Symbol>, yielding: set<Symbol>,
               ghost directR: Effects, ghost directW: Effects, reads0: Effects, writes0: Effects)
    returns (readBy: Effects, writtenBy: Effects, changed: bool)
    requires forall f :: f in order <==> f in calls
    requires Justified(calls, yielding, directR, reads0) && Justified(calls, yielding, directW, writes0)
    ensures Justified(calls, yielding, directR, readBy) && Justified(calls, yielding, directW, writtenBy)
    ensures Facts(reads0) <= Facts(readBy) && Facts(writes0) <= Facts(writtenBy)
    ensures changed ==> Facts(reads0) < Facts(readBy) || Facts(writes0) < Facts(writtenBy)
    ensures !changed ==> readBy == reads0 && writtenBy == writes0
    ensures !changed ==> QuietClosed(calls, yielding, readBy) && QuietClosed(calls, yielding, writtenBy)
  {
    readBy, writtenBy, changed := reads0, writes0, false;
    for i := 0 to |order|
      invariant Justified(calls, yielding, directR, readBy) && Justified(calls, yielding, directW, writtenBy)
      invariant Facts(reads0) <= Facts(readBy) && Facts(writes0) <= Facts(writtenBy)
      invariant changed ==> Facts(reads0) < Facts(readBy) || Facts(writes0) < Facts(writtenBy)
      invariant !changed ==> readBy == reads0 && writtenBy == writes0
      invariant !changed ==> forall k :: 0 <= k < i ==> ClosedAt(calls, yielding, reads0, order[k])
      invariant !changed ==> forall k :: 0 <= k < i ==> ClosedAt(calls, yielding, writes0, order[k])
    {
      var grew;
      readBy, writtenBy, grew := AbsorbCallees(calls, yielding, directR, directW, readBy, writtenBy, order[i]);
      changed := changed || grew;
    }
  }

  lemma DirectIsJustified(calls: Calls, yielding: set<Symbol>, direct: Effects)
    requires direct.Keys == calls.Keys
    ensures Justified(calls, yielding, direct, direct)
  {
    forall f, x | f in direct && x in direct[f] ensures Touches(calls, yielding, direct, f, x) {
      assert TouchedAlong(calls, yielding, direct, f, x, [f]);
    }
  }

  lemma {:induction false} FlowsBackwards(calls: Calls, yielding: set<Symbol>, eff: Effects, path: seq<Symbol>,
                                          x: Symbol, k: nat)
    requires eff.Keys == calls.Keys && QuietClosed(calls, yielding, eff)
    requires QuietPath(calls, yielding, path) && k < |path|
    requires path[|path| - 1] in eff && x in eff[path[|path| - 1]]
    ensures path[k] in eff && x in eff[path[k]]
    decreases |path| - k
  {
    if k < |path| - 1 {
      FlowsBackwards(calls, yielding, eff, path, x, k + 1);
      assert ClosedAt(calls, yielding, eff, path[k]);
      assert QuietCall(calls, yielding, path[k], path[k + 1]);
    }
  }

  lemma ClosedIsComplete(calls: Calls, yielding: set<Symbol>, direct: Effects, eff: Effects)
    requires direct.Keys == calls.Keys
    requires Justified(calls, yielding, direct, eff) && QuietClosed(calls, yielding, eff)
    ensures forall f, x :: f in calls ==> (x in eff[f] <==> Touches(calls, yielding, direct, f, x))
  {
    forall f, x | f in calls && Touches(calls, yielding, direct, f, x) ensures x in eff[f] {
      var path :| TouchedAlong(calls, yielding, direct, f, x, path);
      FlowsBackwards(calls, yielding, eff, path, x, 0);
    }
  }

  method Propagate(calls: Calls, order: seq<Symbol>, yielding: set<Symbol>, directR: Effects, directW: Effects)
    returns (readBy: Effects, writtenBy: Effects)
    requires forall f :: f in order <==> f in calls
    requires directR.Keys == calls.Keys && directW.Keys == calls.Keys
    ensures readBy.Keys == calls.Keys && writtenBy.Keys == calls.Keys
    ensures forall f, x :: f in calls ==> (x in readBy[f] <==> Touches(calls, yielding, directR, f, x))
    ensures forall f, x :: f in calls ==> (x in writtenBy[f] <==> Touches(calls, yielding, directW, f, x))
  {
    readBy, writtenBy := directR, directW;
    DirectIsJustified(calls, yielding, directR);
    DirectIsJustified(calls, yielding, directW);
    var changed := true;
    while changed
      invariant Justified(calls, yielding, directR, readBy) && Justified(calls, yielding, directW, writtenBy)
      invariant !changed ==> QuietClosed(calls, yielding, readBy) && QuietClosed(calls, yielding, writtenBy)
      decreases AllFacts(directR) - Facts(readBy), AllFacts(directW) - Facts(writtenBy), changed
    {
      FactsBounded(calls, yielding, directR, readBy);
      FactsBounded(calls, yielding, directW, writtenBy);
      readBy, writtenBy, changed := Sweep(calls, order, yielding, directR, directW, readBy, writtenBy);
      FactsBounded(calls, yielding, directR, readBy);
      FactsBounded(calls, yielding, directW, writtenBy);
    }
    ClosedIsComplete(calls, yielding, directR, readBy);
    ClosedIsComplete(calls, yielding, directW, writtenBy);
  }

  lemma {:induction false} PrefixReaches(calls: Calls, path: seq<Symbol>, k: nat, y: Symbol)
    requires CallPath(calls, path) && k < |path| && Reaches(calls, path[k], y)
    ensures Reaches(calls, path[0], y)
  {
    if k > 0 {
      ReachesStep(calls, path[k - 1], path[k - 1 + 1], y);
      PrefixReaches(calls, path, k - 1, y);
    }
  }

  /**
    From a function that cannot yield, quiet calls are all the calls there are: what it
    touches is what any known function it can reach touches.
   */
  lemma QuietReachIsReach(calls: Calls, points: set<Symbol>, yielding: set<Symbol>, direct: Effects, f: Symbol,
                          x: Symbol)
    requires direct.Keys == calls.Keys
    requires forall g :: g in yielding <==> CanYield(calls, points, g)
    requires f !in yielding
    ensures Touches(calls, yielding, direct, f, x)
       <==> exists g :: g in direct && Reaches(calls, f, g) && x in direct[g]
  {
    if Touches(calls, yielding, direct, f, x) {
      var path :| TouchedAlong(calls, yielding, direct, f, x, path);
      forall i | 0 <= i < |path| - 1 ensures path[i] in calls && path[i + 1] in calls[path[i]] {
        assert QuietCall(calls, yielding, path[i], path[i + 1]);
      }
      assert PathBetween(calls, f, path[|path| - 1], path);
    }
    if g :| g in direct && Reaches(calls, f, g) && x in direct[g] {
      var path :| PathBetween(calls, f, g, path);
      forall i | 0 <= i < |path| - 1 ensures QuietCall(calls, yielding, path[i], path[i + 1]) {
        if path[i + 1] in yielding {
          var y :| y in points && Reaches(calls, path[i + 1], y);
          PrefixReaches(calls, path, i + 1, y);
        }
      }
      assert TouchedAlong(calls, yielding, direct, f, x, path);
    }
  }

  // ----- Calls that the map does not show -----

  /** A call map that holds every call really made: the functions of `indirect` may call anything besides. */
  ghost predicate Completes(calls: Calls, indirect: set<Symbol>, made: Calls) {
    made.Keys == calls.Keys
    && forall f :: f in calls ==> calls[f] <= made[f] && (f !in indirect ==> made[f] == calls[f])
  }

  /**
    A path of real calls from `f` stays on the map as long as nothing on the map leads from `f` to
    an indirect call.
   */
  lemma {:induction false} RealPathIsMapped(calls: Calls, indirect: set<Symbol>, made: Calls, path: seq<Symbol>, n: nat)
    requires Completes(calls, indirect, made) && CallPath(made, path) && n < |path|
    requires forall g :: g in indirect ==> !Reaches(calls, path[0], g)
    ensures CallPath(calls, path[..n + 1])
  {
    if n > 0 {
      RealPathIsMapped(calls, indirect, made, path, n - 1);
      assert PathBetween(calls, path[0], path[n - 1], path[..n]);
      assert Reaches(calls, path[0], path[n - 1]);
      assert path[n - 1 + 1] in made[path[n - 1]];
      forall i | 0 <= i < n ensures path[i] in calls && path[i + 1] in calls[path[i]] {
        if i < n - 1 {
          assert path[..n][i + 1] in calls[path[..n][i]];
        }
      }
    }
  }

  lemma {:induction false} MappedPathIsReal(calls: Calls, indirect: set<Symbol>, made: Calls, f: Symbol, g: Symbol)
    requires Completes(calls, indirect, made) && Reaches(calls, f, g)
    ensures Reaches(made, f, g)
  {
    var path :| PathBetween(calls, f, g, path);
    assert PathBetween(made, f, g, path);
  }

  lemma IndirectCallReaches(calls: Calls, f: Symbol, g: Symbol, y: Symbol)
    requires Reaches(calls, f, g) && g in calls && y in calls[g]
    ensures Reaches(calls, f, y)
  {
    var path :| PathBetween(calls, f, g, path);
    var longer := path + [y];
    forall i | 0 <= i < |longer| - 1 ensures longer[i] in calls && longer[i + 1] in calls[longer[i]] {
      if i < |path| - 1 {
        assert path[i + 1] in calls[path[i]];
      }
    }
    assert PathBetween(calls, f, y, longer);
  }

  /**
    Exactly when the map settles that a function cannot yield: whatever the indirect calls turn
    out to call, it cannot, if and only if the map leads from it to no yield point and to no
    function with an indirect call.
   */
  lemma NeverYieldsIff(calls: Calls, points: set<Symbol>, indirect: set<Symbol>, f: Symbol)
    requires points != {} && indirect <= calls.Keys
    ensures (forall made :: Completes(calls, indirect, made) ==> !CanYield(made, points, f))
       <==> !CanYield(calls, points, f) && forall g :: g in indirect ==> !Reaches(calls, f, g)
  {
    if !CanYield(calls, points, f) && forall g :: g in indirect ==> !Reaches(calls, f, g) {
      forall made | Completes(calls, indirect, made) ensures !CanYield(made, points, f) {
        if y :| y in points && Reaches(made, f, y) {
          var path :| PathBetween(made, f, y, path);
          RealPathIsMapped(calls, indirect, made, path, |path| - 1);
          assert path[..|path|] == path;
          assert PathBetween(calls, f, y, path);
        }
      }
    } else if CanYield(calls, points, f) {
      assert Completes(calls, indirect, calls);
    } else {
      var g :| g in indirect && Reaches(calls, f, g);
      var y :| y in points;
      var made := calls[g := calls[g] + {y}];
      assert Completes(calls, indirect, made);
      MappedPathIsReal(calls, indirect, made, f, g);
      IndirectCallReaches(made, f, g, y);
    }
  }
}
