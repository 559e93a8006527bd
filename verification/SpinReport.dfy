/**
  The verdict on one backward branch: the loop is reported when it has no indirect call,
  cannot reach a yield point, waits on some global it does not store, and makes no
  progress of its own.  The verdict is stated over the whole call graph.
 */
module SpinReport {
  import opened Wrappers
  import opened MipsBody
  import opened CallGraph
  import opened SpinLoops

  function Callees(span: seq<Insn>): set<Symbol> {
    set i | 0 <= i < |span| && span[i].kind.Jal? && span[i].callee.Some? :: span[i].callee.value
  }

  predicate HasIndirectCall(span: seq<Insn>) {
    exists i :: 0 <= i < |span| && span[i].kind.Jalr?
  }

  /** A %lo on a store writes the global; on anything else it counts as a read. */
  predicate Mentions(span: seq<Insn>, store: bool, x: Symbol) {
    exists i :: 0 <= i < |span| && span[i].StoresGlobal() == store && x in span[i].globals
  }

  /** `x` is touched in the loop body or anywhere a call from it can lead. */
  ghost predicate LoopTouches(span: seq<Insn>, store: bool, calls: Calls, direct: Effects, x: Symbol) {
    Mentions(span, store, x)
    || exists c, g :: c in Callees(span) && Reaches(calls, c, g) && g in direct && x in direct[g]
  }

  /** The loop looks at `x`, and neither it nor anything it can call stores `x`. */
  ghost predicate WaitsOn(span: seq<Insn>, calls: Calls, directR: Effects, directW: Effects, x: Symbol) {
    LoopTouches(span, false, calls, directR, x) && !LoopTouches(span, true, calls, directW, x)
  }

  lemma MentionsSnoc(span: seq<Insn>, i: Insn)
    ensures forall store, x :: Mentions(span + [i], store, x)
                               <==> Mentions(span, store, x) || (i.StoresGlobal() == store && x in i.globals)
  {
    forall store, x
      ensures Mentions(span + [i], store, x)
         <==> Mentions(span, store, x) || (i.StoresGlobal() == store && x in i.globals)
    {
      var all := span + [i];
      assert all[|span|] == i;
      assert forall k :: 0 <= k < |span| ==> all[k] == span[k];
    }
  }

  method GlobalsOf(span: seq<Insn>) returns (loads: set<Symbol>, stores: set<Symbol>)
    ensures forall x :: x in loads <==> Mentions(span, false, x)
    ensures forall x :: x in stores <==> Mentions(span, true, x)
  {
    loads, stores := {}, {};
    for p := 0 to |span|
      invariant forall x :: x in loads <==> Mentions(span[..p], false, x)
      invariant forall x :: x in stores <==> Mentions(span[..p], true, x)
    {
      var names := set x | x in span[p].globals;
      assert span[..p + 1] == span[..p] + [span[p]];
      MentionsSnoc(span[..p], span[p]);
      if span[p].StoresGlobal() {
        stores := stores + names;
      } else {
        loads := loads + names;
      }
    }
    assert span[..|span|] == span;
  }

  /** A loop worth reporting: no way to yield, an exit test of no progress, and a global to wait on. */
  ghost predicate IsSpin(span: seq<Insn>, calls: Calls, directR: Effects, directW: Effects) {
    && !HasIndirectCall(span)
    && (forall c :: c in Callees(span) ==> !CanYield(calls, YIELD_POINTS, c))
    && IsWait(span)
    && exists x :: WaitsOn(span, calls, directR, directW, x)
  }

  /** The right verdict on one loop, stated over the call graph and the direct effects alone. */
  ghost predicate Correct(
    verdict: Option<set<Symbol>>, span: seq<Insn>, calls: Calls, directR: Effects, directW: Effects)
  {
    && (verdict.Some? <==> IsSpin(span, calls, directR, directW))
    && (verdict.Some? ==> forall x :: x in verdict.value <==> WaitsOn(span, calls, directR, directW, x))
  }

  /** What the two fixpoints leave for the verdicts. */
  ghost predicate Propagated(calls: Calls, yielding: set<Symbol>, readBy: Effects, writtenBy: Effects,
                             directR: Effects, directW: Effects)
  {
    && directR.Keys == directW.Keys == readBy.Keys == writtenBy.Keys == calls.Keys
    && (forall f :: f in yielding <==> CanYield(calls, YIELD_POINTS, f))
    && (forall f, x :: f in calls ==> (x in readBy[f] <==> Touches(calls, yielding, directR, f, x)))
    && (forall f, x :: f in calls ==> (x in writtenBy[f] <==> Touches(calls, yielding, directW, f, x)))
  }

  lemma ThroughCallees(span: seq<Insn>, store: bool, calls: Calls, points: set<Symbol>, yielding: set<Symbol>,
                       direct: Effects, eff: Effects)
    requires direct.Keys == eff.Keys == calls.Keys
    requires forall f :: f in yielding <==> CanYield(calls, points, f)
    requires Callees(span) !! yielding
    requires forall f, x :: f in calls ==> (x in eff[f] <==> Touches(calls, yielding, direct, f, x))
    ensures forall x :: LoopTouches(span, store, calls, direct, x)
                        <==> Mentions(span, store, x) || exists c :: c in Callees(span) && c in calls && x in eff[c]
  {
    forall x
      ensures LoopTouches(span, store, calls, direct, x)
         <==> Mentions(span, store, x) || exists c :: c in Callees(span) && c in calls && x in eff[c]
    {
      if c, g :| c in Callees(span) && Reaches(calls, c, g) && g in direct && x in direct[g] {
        QuietReachIsReach(calls, points, yielding, direct, c, x);
        var path :| PathBetween(calls, c, g, path);
        assert c in calls;
      }
      if c :| c in Callees(span) && c in calls && x in eff[c] {
        QuietReachIsReach(calls, points, yielding, direct, c, x);
      }
    }
  }

  method Judge(span: seq<Insn>, calls: Calls, yielding: set<Symbol>, readBy: Effects, writtenBy: Effects,
               ghost directR: Effects, ghost directW: Effects)
    returns (verdict: Option<set<Symbol>>)
    requires Propagated(calls, yielding, readBy, writtenBy, directR, directW)
    ensures Correct(verdict, span, calls, directR, directW)
  {
    if exists i :: 0 <= i < |span| && span[i].kind.Jalr? {
      return None;
    }
    var callees := Callees(span);
    var dangerous := callees * yielding;
    if dangerous != {} {
      ghost var c :| c in dangerous;
      return None;
    }
    assert forall c :: c in callees ==> c !in dangerous;
    var loads, stores := GlobalsOf(span);
    var left := callees;
    while left != {}
      invariant left <= callees
      invariant forall x :: x in loads <==>
                            Mentions(span, false, x) || exists c :: c in callees - left && c in calls && x in readBy[c]
      invariant forall x :: x in stores <==>
                            Mentions(span, true, x) || exists c :: c in callees - left && c in calls && x in writtenBy[c]
      decreases left
    {
      var c :| c in left;
      left := left - {c};
      if c in calls {
        loads := loads + readBy[c];
        stores := stores + writtenBy[c];
      }
    }
    ThroughCallees(span, false, calls, YIELD_POINTS, yielding, directR, readBy);
    ThroughCallees(span, true, calls, YIELD_POINTS, yielding, directW, writtenBy);
    var waited := loads - stores;
    assert forall x :: x in waited <==> WaitsOn(span, calls, directR, directW, x);
    if waited == {} {
      return None;
    }
    var progress := LoopMakesProgress(span);
    if progress {
      return None;
    }
    ghost var x :| x in waited;
    return Some(waited);
  }

  // ----- The whole program -----

  /** A function of the disassembly.  Two may carry the same name; the later one counts. */
  datatype Function = Function(name: Symbol, body: seq<Insn>)

  predicate Named(funcs: seq<Function>, f: Symbol) {
    exists n :: 0 <= n < |funcs| && funcs[n].name == f
  }

  /** The body that counts under a name. */
  function BodyOf(funcs: seq<Function>, f: Symbol): seq<Insn>
    requires Named(funcs, f)
  {
    var last := |funcs| - 1;
    if funcs[last].name == f then funcs[last].body else BodyOf(funcs[..last], f)
  }

  /** The maps are the call map and the direct effects of the program. */
  ghost predicate Describes(funcs: seq<Function>, calls: Calls, directR: Effects, directW: Effects) {
    && directR.Keys == directW.Keys == calls.Keys
    && (forall f :: f in calls <==> Named(funcs, f))
    && forall f :: f in calls ==>
                     && calls[f] == Callees(BodyOf(funcs, f))
                     && (forall x :: x in directR[f] <==> Mentions(BodyOf(funcs, f), false, x))
                     && (forall x :: x in directW[f] <==> Mentions(BodyOf(funcs, f), true, x))
  }

  lemma OneMoreFunction(funcs: seq<Function>, g: Function, f: Symbol)
    ensures Named(funcs + [g], f) <==> f == g.name || Named(funcs, f)
    ensures Named(funcs + [g], f) ==> BodyOf(funcs + [g], f) == if f == g.name then g.body else BodyOf(funcs, f)
  {
    var all := funcs + [g];
    assert all[|funcs|] == g && all[..|funcs|] == funcs;
    assert forall n :: 0 <= n < |funcs| ==> all[n] == funcs[n];
  }

  /** Adding a function replaces the entry of its name and keeps the others. */
  lemma DescribesOneMore(funcs: seq<Function>, g: Function, calls: Calls, directR: Effects, directW: Effects,
                         loads: set<Symbol>, stores: set<Symbol>)
    requires Describes(funcs, calls, directR, directW)
    requires forall x :: x in loads <==> Mentions(g.body, false, x)
    requires forall x :: x in stores <==> Mentions(g.body, true, x)
    ensures Describes(funcs + [g], calls[g.name := Callees(g.body)], directR[g.name := loads], directW[g.name := stores])
  {
    var calls2, reads2, writes2 := calls[g.name := Callees(g.body)], directR[g.name := loads],
                                   directW[g.name := stores];
    hide Named, BodyOf, Mentions, Callees;
    forall f ensures f in calls2 <==> Named(funcs + [g], f) {
      OneMoreFunction(funcs, g, f);
    }
    forall f | f in calls2
      ensures && calls2[f] == Callees(BodyOf(funcs + [g], f))
              && (forall x :: x in reads2[f] <==> Mentions(BodyOf(funcs + [g], f), false, x))
              && (forall x :: x in writes2[f] <==> Mentions(BodyOf(funcs + [g], f), true, x))
    {
      OneMoreFunction(funcs, g, f);
    }
  }

  /** The maps of the program, and the order their keys went in. */
  method Collect(funcs: seq<Function>)
    returns (calls: Calls, order: seq<Symbol>, directR: Effects, directW: Effects)
    ensures forall f :: f in order <==> f in calls
    ensures Describes(funcs, calls, directR, directW)
  {
    calls, order, directR, directW := map[], [], map[], map[];
    hide Mentions, Callees;
    for n := 0 to |funcs|
      invariant forall f :: f in order <==> f in calls
      invariant Describes(funcs[..n], calls, directR, directW)
    {
      hide Describes;
      var g := funcs[n];
      assert funcs[..n + 1] == funcs[..n] + [g];
      var loads, stores := GlobalsOf(g.body);
      DescribesOneMore(funcs[..n], g, calls, directR, directW, loads, stores);
      if g.name !in calls {
        order := order + [g.name];
      }
      calls := calls[g.name := Callees(g.body)];
      directR, directW := directR[g.name := loads], directW[g.name := stores];
    }
    assert funcs[..|funcs|] == funcs;
  }

  /** The branch at `i` goes back to an earlier instruction of its own function. */
  predicate ClosesLoop(body: seq<Insn>, i: nat) {
    i < |body| && body[i].target.Some? && body[i].target.value < i
  }

  /** The loop it closes, its delay slot included. */
  function LoopBody(body: seq<Insn>, i: nat): seq<Insn>
    requires ClosesLoop(body, i)
  {
    body[body[i].target.value..if i + 2 < |body| then i + 2 else |body|]
  }

  /** A row of the report: which branch of which function, and what its loop waits on. */
  datatype Row = Row(func: nat, branch: nat, waited: set<Symbol>)

  /** The row is one that the report should hold. */
  ghost predicate Reportable(funcs: seq<Function>, calls: Calls, directR: Effects, directW: Effects, row: Row) {
    && row.func < |funcs| && ClosesLoop(funcs[row.func].body, row.branch)
    && var span := LoopBody(funcs[row.func].body, row.branch);
    && IsSpin(span, calls, directR, directW)
    && forall x :: x in row.waited <==> WaitsOn(span, calls, directR, directW, x)
  }

  lemma DescribedOnce(funcs: seq<Function>, calls: Calls, directR: Effects, directW: Effects,
                      calls2: Calls, directR2: Effects, directW2: Effects)
    requires Describes(funcs, calls, directR, directW) && Describes(funcs, calls2, directR2, directW2)
    ensures calls == calls2 && directR == directR2 && directW == directW2
  {
    hide Callees, Mentions, BodyOf, Named;
    assert calls.Keys == calls2.Keys by {
      forall f ensures f in calls <==> f in calls2 {
        assert f in calls <==> Named(funcs, f);
      }
    }
    forall f | f in calls ensures directR[f] == directR2[f] && directW[f] == directW2[f] {
      assert forall x :: x in directR[f] <==> x in directR2[f];
      assert forall x :: x in directW[f] <==> x in directW2[f];
    }
  }

  /** A loop at this branch, spinning, with these globals. */
  method ScanBranch(body: seq<Insn>, i: nat, calls: Calls, yielding: set<Symbol>, readBy: Effects, writtenBy: Effects,
                    ghost directR: Effects, ghost directW: Effects)
    returns (verdict: Option<set<Symbol>>)
    requires i < |body|
    requires Propagated(calls, yielding, readBy, writtenBy, directR, directW)
    ensures verdict.Some? <==> ClosesLoop(body, i) && IsSpin(LoopBody(body, i), calls, directR, directW)
    ensures verdict.Some? ==> forall x :: x in verdict.value <==> WaitsOn(LoopBody(body, i), calls, directR, directW, x)
  {
    if body[i].target.None? || body[i].target.value >= i {
      return None;
    }
    hide IsSpin, WaitsOn;
    var end := if i + 2 < |body| then i + 2 else |body|;
    verdict := Judge(body[body[i].target.value..end], calls, yielding, readBy, writtenBy, directR, directW);
  }

  /** What a branch's verdict says about the rows for it. */
  lemma RowAt(funcs: seq<Function>, n: nat, i: nat, calls: Calls, directR: Effects, directW: Effects,
              verdict: Option<set<Symbol>>)
    requires n < |funcs| && i < |funcs[n].body|
    requires var body := funcs[n].body;
             && (verdict.Some? <==> ClosesLoop(body, i) && IsSpin(LoopBody(body, i), calls, directR, directW))
             && (verdict.Some? ==> forall x :: x in verdict.value <==> WaitsOn(LoopBody(body, i), calls, directR, directW, x))
    ensures forall row: Row :: row.func == n && row.branch == i ==>
                                 (Reportable(funcs, calls, directR, directW, row) <==> verdict.Some? && row == Row(n, i, verdict.value))
  {
    hide IsSpin, WaitsOn, ClosesLoop, LoopBody;
    forall row: Row | row.func == n && row.branch == i
      ensures Reportable(funcs, calls, directR, directW, row) <==> verdict.Some? && row == Row(n, i, verdict.value)
    {
      if Reportable(funcs, calls, directR, directW, row) {
        assert forall x :: x in row.waited <==> x in verdict.value;
      }
    }
  }

  /** Rows are about branches of functions of the program. */
  lemma RowsInside(funcs: seq<Function>, n: nat, calls: Calls, directR: Effects, directW: Effects)
    ensures forall row :: Reportable(funcs, calls, directR, directW, row)
                          ==> row.func < |funcs| && row.branch < |funcs[row.func].body|
  {
  }

  /**
    The whole scan, from the decoded functions: the report holds a row for exactly the backward
    branches whose loops are spins, and each row names exactly the globals its loop waits on.
   */
  method Scan(funcs: seq<Function>) returns (rows: seq<Row>)
    ensures forall calls, directR, directW, row :: Describes(funcs, calls, directR, directW)
                                                   ==> (row in rows <==> Reportable(funcs, calls, directR, directW, row))
  {
    var calls, order, directR, directW := Collect(funcs);
    var yielding := YieldSet(calls, YIELD_POINTS, order);
    var readBy, writtenBy := Propagate(calls, order, yielding, directR, directW);
    rows := [];
    hide Reportable, Describes, IsSpin, WaitsOn, ClosesLoop, LoopBody;
    for n := 0 to |funcs|
      invariant forall row :: row in rows <==> row.func < n && Reportable(funcs, calls, directR, directW, row)
    {
      var body := funcs[n].body;
      for i := 0 to |body|
        invariant forall row :: row in rows <==>
                                (row.func < n || (row.func == n && row.branch < i)) && Reportable(funcs, calls, directR, directW, row)
      {
        var verdict := ScanBranch(body, i, calls, yielding, readBy, writtenBy, directR, directW);
        RowAt(funcs, n, i, calls, directR, directW, verdict);
        if verdict.Some? {
          rows := rows + [Row(n, i, verdict.value)];
        }
      }
      RowsInside(funcs, n, calls, directR, directW);
    }
    forall calls2, directR2, directW2, row | Describes(funcs, calls2, directR2, directW2)
      ensures row in rows <==> Reportable(funcs, calls2, directR2, directW2, row)
    {
      DescribedOnce(funcs, calls, directR, directW, calls2, directR2, directW2);
      RowsInside(funcs, row.func, calls, directR, directW);
    }
  }
}
