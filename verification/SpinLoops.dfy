/**
  The spin-loop analyser: which registers a loop carries from one iteration to the
  next, which registers its exit test depends on, and whether the two meet.

  The analysis is proved exact against a path-based definition; what its verdict means for a
  running loop is in SpinMachine.
 */
module SpinLoops {
  import opened Wrappers
  import opened MipsBody

  // ----- What the analysis means -----

  /** An instruction of the body defines `d` from `u`. */
  ghost predicate Feeds(span: seq<Insn>, d: Reg, u: Reg) {
    u != ZERO && exists i :: 0 <= i < |span| && span[i].Def() == Some(d) && u in span[i].Uses()
  }

  ghost predicate IsChain(span: seq<Insn>, chain: seq<Reg>) {
    |chain| > 0 && forall i :: 0 <= i < |chain| - 1 ==> Feeds(span, chain[i], chain[i + 1])
  }

  ghost predicate ChainTo(span: seq<Insn>, seeds: set<Reg>, r: Reg, chain: seq<Reg>) {
    IsChain(span, chain) && chain[0] in seeds && chain[|chain| - 1] == r
  }

  /** Some seed is computed, through any number of definitions, from `r`. */
  ghost predicate DependsOn(span: seq<Insn>, seeds: set<Reg>, r: Reg) {
    exists chain :: ChainTo(span, seeds, r, chain)
  }

  predicate WrittenBefore(span: seq<Insn>, n: nat, r: Reg)
    requires n <= |span|
  {
    exists j :: 0 <= j < n && span[j].Def() == Some(r)
  }

  /** `r` is read by one of the first `n` instructions before any of them has written it. */
  predicate ReadBeforeWritten(span: seq<Insn>, n: nat, r: Reg)
    requires n <= |span|
  {
    r != ZERO && exists i :: 0 <= i < n && r in span[i].Uses() && !WrittenBefore(span, i, r)
  }

  /** The value of `r` at the top of an iteration comes from the previous one. */
  predicate LoopCarried(span: seq<Insn>, r: Reg) {
    ReadBeforeWritten(span, |span|, r) && WrittenBefore(span, |span|, r)
  }

  predicate IsLastBranch(span: seq<Insn>, b: nat) {
    b < |span| && span[b].TransfersControl()
    && forall j :: b < j < |span| ==> !span[j].TransfersControl()
  }

  function Tested(i: Insn): set<Reg> {
    set u | u in i.Uses() && u != ZERO
  }

  ghost predicate IsWaitAt(span: seq<Insn>, b: nat)
    requires b < |span|
  {
    Tested(span[b]) != {}
    && forall r :: DependsOn(span, Tested(span[b]), r) ==> !LoopCarried(span, r)
  }

  /** A wait: the last branch tests something, and nothing it depends on is loop-carried. */
  ghost predicate IsWait(span: seq<Insn>) {
    exists b: nat :: IsLastBranch(span, b) && IsWaitAt(span, b)
  }

  // ----- The analysis -----

  method CarriedRegisters(span: seq<Insn>) returns (carried: set<Reg>)
    ensures forall r :: r in carried <==> LoopCarried(span, r)
  {
    var written: set<Reg> := {};
    carried := {};
    for p := 0 to |span|
      invariant forall r :: r in written <==> WrittenBefore(span, p, r)
      invariant forall r :: r in carried <==> ReadBeforeWritten(span, p, r)
    {
      var uses := span[p].Uses();
      for k := 0 to |uses|
        invariant forall r :: r in carried <==>
                              ReadBeforeWritten(span, p, r)
                              || (r in uses[..k] && r != ZERO && !WrittenBefore(span, p, r))
      {
        if uses[k] !in written && uses[k] != ZERO {
          carried := carried + {uses[k]};
        }
      }
      assert uses[..|uses|] == uses;
      if span[p].Def().Some? {
        written := written + {span[p].Def().value};
      }
    }
    carried := carried * written;
  }

  method LastBranch(span: seq<Insn>) returns (found: Option<nat>)
    ensures found.Some? ==> IsLastBranch(span, found.value)
    ensures found.None? ==> forall j :: 0 <= j < |span| ==> !span[j].TransfersControl()
  {
    var p := |span|;
    while p > 0
      invariant 0 <= p <= |span|
      invariant forall j :: p <= j < |span| ==> !span[j].TransfersControl()
    {
      p := p - 1;
      if span[p].TransfersControl() {
        return Some(p);
      }
    }
    return None;
  }

  /** Everything the instruction at `i` makes a dependency is already in `deps`. */
  predicate Settled(span: seq<Insn>, deps: set<Reg>, i: nat)
    requires i < |span|
  {
    span[i].Def().Some? && span[i].Def().value in deps
    && forall u :: u in span[i].Uses() && u != ZERO ==> u in deps
  }

  ghost function SettledSet(span: seq<Insn>, deps: set<Reg>): set<nat> {
    set i: nat | i < |span| && Settled(span, deps, i)
  }

  ghost predicate Closed(span: seq<Insn>, deps: set<Reg>) {
    forall i :: 0 <= i < |span| && span[i].Def().Some? && span[i].Def().value in deps
                ==> Settled(span, deps, i)
  }

  lemma {:induction false} SubsetSize(a: set<nat>, b: set<nat>)
    requires a <= b
    ensures |a| <= |b|
  {
    if a != {} {
      var x :| x in a;
      SubsetSize(a - {x}, b - {x});
    }
  }

  lemma SubsetGrows(a: set<nat>, b: set<nat>, x: nat)
    requires a <= b && x in b && x !in a
    ensures |a| < |b|
  {
    SubsetSize(a, b - {x});
  }

  lemma ExtendChain(span: seq<Insn>, seeds: set<Reg>, d: Reg, u: Reg, i: nat)
    requires DependsOn(span, seeds, d)
    requires i < |span| && span[i].Def() == Some(d) && u in span[i].Uses() && u != ZERO
    ensures DependsOn(span, seeds, u)
  {
    var chain :| ChainTo(span, seeds, d, chain);
    assert Feeds(span, d, u);
    assert ChainTo(span, seeds, u, chain + [u]);
  }

  /** One pass over the body: the operands of every instruction that defines a dependency become dependencies. */
  method BackwardPass(span: seq<Insn>, ghost seeds: set<Reg>, before: set<Reg>)
    returns (deps: set<Reg>, grew: bool)
    requires forall r :: r in before ==> DependsOn(span, seeds, r)
    ensures before <= deps
    ensures forall r :: r in deps ==> DependsOn(span, seeds, r)
    ensures grew ==> |SettledSet(span, deps)| > |SettledSet(span, before)|
    ensures !grew ==> deps == before && Closed(span, deps)
  {
    deps, grew := before, false;
    ghost var first: nat := 0;
    for p := 0 to |span|
      invariant before <= deps
      invariant forall r :: r in deps ==> DependsOn(span, seeds, r)
      invariant !grew ==> deps == before
      invariant !grew ==> forall i :: 0 <= i < p && span[i].Def().Some? && span[i].Def().value in deps
                                      ==> Settled(span, deps, i)
      invariant grew ==> first < |span| && Settled(span, deps, first) && !Settled(span, before, first)
    {
      var d := span[p].Def();
      if d.Some? && d.value in deps {
        ghost var entry := deps;
        var uses := span[p].Uses();
        var added := false;
        for k := 0 to |uses|
          invariant entry <= deps
          invariant d.value in deps
          invariant forall r :: r in deps ==> DependsOn(span, seeds, r)
          invariant !added ==> deps == entry
          invariant added ==> exists u :: u in uses && u != ZERO && u !in entry
          invariant forall u :: u in uses[..k] && u != ZERO ==> u in deps
        {
          if uses[k] != ZERO && uses[k] !in deps {
            ExtendChain(span, seeds, d.value, uses[k], p);
            deps := deps + {uses[k]};
            added := true;
          }
        }
        assert uses[..|uses|] == uses;
        if added {
          if !grew {
            first := p;
          }
          grew := true;
        }
      }
    }
    if grew {
      var s0, s1 := SettledSet(span, before), SettledSet(span, deps);
      assert first in s1 && first !in s0 && s0 <= s1;
      SubsetGrows(s0, s1, first);
    }
  }

  lemma {:induction false} ChainStaysInside(span: seq<Insn>, deps: set<Reg>, chain: seq<Reg>, k: nat)
    requires Closed(span, deps) && IsChain(span, chain) && chain[0] in deps
    requires k < |chain|
    ensures chain[k] in deps
  {
    if k > 0 {
      ChainStaysInside(span, deps, chain, k - 1);
      assert Feeds(span, chain[k - 1], chain[k - 1 + 1]);
    }
  }

  ghost function Indices(n: nat): (all: set<nat>)
    ensures |all| == n && forall i: nat :: i in all <==> i < n
  {
    if n == 0 then {} else Indices(n - 1) + {n - 1}
  }

  /** As many settled instructions as there are instructions leaves nothing open. */
  lemma AllSettled(span: seq<Insn>, deps: set<Reg>)
    requires |SettledSet(span, deps)| >= |span|
    ensures Closed(span, deps)
  {
    forall i: nat | i < |span| ensures Settled(span, deps, i) {
      if !Settled(span, deps, i) {
        SubsetSize(SettledSet(span, deps), Indices(|span|) - {i});
        assert false;
      }
    }
  }

  /**
    The backward walk.  It makes at most `|span|` passes, and that is always enough:
    each pass that adds a register settles an instruction for good.
   */
  method BackwardClosure(span: seq<Insn>, seeds: set<Reg>) returns (deps: set<Reg>)
    requires ZERO !in seeds
    ensures Closed(span, deps)
    ensures forall r :: r in deps <==> DependsOn(span, seeds, r)
  {
    deps := seeds;
    forall r | r in seeds ensures DependsOn(span, seeds, r) {
      assert ChainTo(span, seeds, r, [r]);
    }
    var pass := 0;
    var grew := true;
    while pass < |span| && grew
      invariant 0 <= pass <= |span|
      invariant seeds <= deps
      invariant forall r :: r in deps ==> DependsOn(span, seeds, r)
      invariant grew ==> |SettledSet(span, deps)| >= pass
      invariant !grew ==> Closed(span, deps)
      decreases |span| - pass
    {
      deps, grew := BackwardPass(span, seeds, deps);
      pass := pass + 1;
    }
    if grew {
      AllSettled(span, deps);
    }
    forall r | DependsOn(span, seeds, r) ensures r in deps {
      var chain :| ChainTo(span, seeds, r, chain);
      ChainStaysInside(span, deps, chain, |chain| - 1);
    }
  }

  /** The whole test: false exactly for a wait. */
  method LoopMakesProgress(span: seq<Insn>) returns (progress: bool)
    ensures progress <==> !IsWait(span)
  {
    var carried := CarriedRegisters(span);
    var branch := LastBranch(span);
    if branch.None? {
      return true;
    }
    var b := branch.value;
    assert forall c: nat :: IsLastBranch(span, c) ==> c == b;
    var uses := span[b].Uses();
    var seeds := set u | u in uses && u != ZERO;
    assert seeds == Tested(span[b]);
    if seeds == {} {
      return true;
    }
    var deps := BackwardClosure(span, seeds);
    progress := deps * carried != {};
    if progress {
      var r :| r in deps * carried;
      assert DependsOn(span, seeds, r) && LoopCarried(span, r);
    } else {
      assert IsWaitAt(span, b) by {
        forall r | DependsOn(span, Tested(span[b]), r) ensures !LoopCarried(span, r) {
          assert r in deps;
          assert r !in deps * carried;
        }
      }
    }
  }
}
